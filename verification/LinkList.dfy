/**
 * lib/_linklist.js: an intrusive, doubly linked, circular list. A list is a ring through its head; following
 * `_idlePrev` from the head visits the items from the most idle one on. The pointers are kept in objects; what
 * they say is read off as a pair of maps, and the rings of all lists together are described by a map from heads
 * to sequences.
 */
module LinkList {

  import opened Common

  /** An object that can be a list or sit in one; the other fields belong to lib/timers.js. */
  class Item {
    var idleNext: Item?
    var idlePrev: Item?
    var idleStart: int
    var idleTimeout: Option<int>
    var deadline: Option<int>

    constructor ()
      ensures idleNext == null && idlePrev == null && idleTimeout == None && deadline == None
    {
      idleNext, idlePrev, idleStart, idleTimeout, deadline := null, null, 0, None, None;
    }
  }

  /** All pointers among some objects. */
  datatype Links = Links(next: map<Item, Item?>, prev: map<Item, Item?>)

  type Rings = map<Item, seq<Item>>

  ghost function LinksOf(all: set<Item>): Links
    reads all`idleNext, all`idlePrev
  {
    Links(map x | x in all :: x.idleNext, map x | x in all :: x.idlePrev)
  }

  // ------------------------------------------------------------------ rings

  ghost predicate Linked(l: Links, a: Item, b: Item) {
    a in l.prev && l.prev[a] == b && b in l.next && l.next[b] == a
  }

  ghost predicate Distinct(s: seq<Item>) {
    forall i, j :: 0 <= i < j < |s| ==> s[i] != s[j]
  }

  ghost function Round(head: Item, items: seq<Item>): set<Item> {
    {head} + Elements(items)
  }

  ghost function Elements(s: seq<Item>): set<Item> {
    set x | x in s
  }

  /** The head and the items form a ring, the most idle item first. */
  ghost predicate Ring(l: Links, head: Item, items: seq<Item>) {
    var all := [head] + items;
    && Distinct(all)
    && (forall i :: 0 <= i < |items| ==> Linked(l, all[i], all[i + 1]))
    && Linked(l, all[|items|], head)
  }

  ghost predicate Apart(w: Rings) {
    forall g, h :: g in w && h in w && g != h ==> Round(g, w[g]) !! Round(h, w[h])
  }

  /** Every list is a ring standing for its sequence, and no item is in two rings. */
  ghost predicate Valid(l: Links, w: Rings) {
    Apart(w) && forall h :: h in w ==> Ring(l, h, w[h])
  }

  /** The item is in some ring of `w`. */
  ghost predicate InRings(w: Rings, item: Item) {
    exists h :: h in w && item in Round(h, w[h])
  }

  /** The item is in no ring and its pointers say so. */
  ghost predicate Detached(l: Links, w: Rings, item: Item) {
    !InRings(w, item) && item in l.next && item in l.prev && l.next[item] == null && l.prev[item] == null
  }

  /** An item in some list, alone in its own ring, or in none: anything but a list that holds items. */
  ghost predicate Movable(l: Links, w: Rings, item: Item) {
    if item in w then w[item] == [] else InRings(w, item) || Detached(l, w, item)
  }

  // ------------------------------------------------------------------ what the operations do to the pointers

  /** Lines 47-58. */
  ghost function Bypass(l: Links, item: Item): Links
    requires item in l.next && item in l.prev
  {
    var n, p := l.next[item], l.prev[item];
    var prev1 := if n != null then l.prev[n := p] else l.prev;
    var next1 := if p != null then l.next[p := n] else l.next;
    Links(next1[item := null], prev1[item := null])
  }

  /** Lines 65-68, after the removal. */
  ghost function Insert(l: Links, list: Item, item: Item): Links
    requires list in l.next && l.next[list] != null
  {
    var n := l.next[list];
    Links(l.next[item := n][list := item], l.prev[n := item][item := list])
  }

  // ------------------------------------------------------------------ what they do to the rings

  function Without(s: seq<Item>, x: Item): seq<Item> {
    if s == [] then [] else (if s[0] == x then [] else [s[0]]) + Without(s[1..], x)
  }

  /** The rings once `item` is taken out of whichever ring holds it. */
  ghost function Gone(w: Rings, item: Item): Rings {
    map h | h in w && h != item :: Without(w[h], item)
  }

  /** The rings once `item` is moved to the end of `list`. */
  ghost function Moved(w: Rings, list: Item, item: Item): Rings
    requires list in w && list != item
  {
    Gone(w, item)[list := Without(w[list], item) + [item]]
  }

  lemma {:induction false} WithoutAbsent(s: seq<Item>, x: Item)
    requires x !in s
    ensures Without(s, x) == s
  {
    if s == [] {
    } else {
      WithoutAbsent(s[1..], x);
      assert [s[0]] + s[1..] == s;
    }
  }

  lemma {:induction false} WithoutAt(s: seq<Item>, k: nat)
    requires k < |s| && Distinct(s)
    ensures Without(s, s[k]) == s[..k] + s[k + 1..]
  {
    if k == 0 {
      WithoutAbsent(s[1..], s[0]);
    } else {
      WithoutAt(s[1..], k - 1);
      assert s[0] != s[k];
      assert [s[0]] + s[1..][..k - 1] == s[..k];
      assert s[1..][k..] == s[k + 1..];
    }
  }

  lemma {:induction false} WithoutElements(s: seq<Item>, x: Item)
    ensures Elements(Without(s, x)) == Elements(s) - {x}
  {
    if s == [] {
    } else {
      WithoutElements(s[1..], x);
      assert Elements(s) == {s[0]} + Elements(s[1..]);
      assert Elements(Without(s, x)) == (if s[0] == x then {} else {s[0]}) + Elements(Without(s[1..], x));
    }
  }

  function IndexOf(s: seq<Item>, x: Item): (k: nat)
    requires x in s
    ensures k < |s| && s[k] == x
  {
    if s[0] == x then 0 else 1 + IndexOf(s[1..], x)
  }

  function Skip(i: nat, k: nat): nat {
    if i <= k then i else i + 1
  }

  /** Bypassing the item at `k` of a ring leaves the ring of the others. */
  lemma RingBypassed(l: Links, head: Item, items: seq<Item>, k: nat)
    requires k < |items| && Ring(l, head, items) && items[k] in l.next && items[k] in l.prev
    ensures Ring(Bypass(l, items[k]), head, items[..k] + items[k + 1..])
  {
    var all, item := [head] + items, items[k];
    var rest := items[..k] + items[k + 1..];
    var left := [head] + rest;
    var l' := Bypass(l, item);
    assert item == all[k + 1] && Linked(l, all[k], all[k + 1]);
    var after := if k + 1 == |items| then head else all[k + 2];
    assert Linked(l, item, after) by {
      if k + 1 < |items| { assert Linked(l, all[k + 1], all[k + 2]); }
    }
    assert l.next[item] == all[k] && l.prev[item] == after;
    forall i | 0 <= i < |left| ensures left[i] == all[Skip(i, k)] && left[i] != item {
      assert left[i] == all[Skip(i, k)] && all[Skip(i, k)] != all[k + 1];
    }
    forall i, j | 0 <= i < j < |left| ensures left[i] != left[j] {
      assert all[Skip(i, k)] != all[Skip(j, k)];
    }
    forall i | 0 <= i < |rest| ensures Linked(l', left[i], left[i + 1]) {
      if i < k {
        assert Linked(l, all[i], all[i + 1]);
        assert left[i] != all[k] && left[i + 1] != after;
      } else if i > k {
        assert Linked(l, all[i + 1], all[i + 2]);
        assert left[i] != all[k] && left[i + 1] != after;
      }
    }
    assert left[|rest|] == all[Skip(|rest|, k)];
    if k < |rest| {
      assert left[|rest|] != all[k] && head != after;
    }
  }

  /** Two sets of pointers agree on a ring. */
  lemma RingSame(l: Links, l': Links, head: Item, items: seq<Item>)
    requires Ring(l, head, items)
    requires forall x :: x in Round(head, items) ==> x in l'.next && x in l'.prev
    requires forall x :: x in Round(head, items) && x in l.next ==> l'.next[x] == l.next[x]
    requires forall x :: x in Round(head, items) && x in l.prev ==> l'.prev[x] == l.prev[x]
    ensures Ring(l', head, items)
  {
    var all := [head] + items;
    assert forall i :: 0 <= i < |all| ==> all[i] in Round(head, items);
    forall i | 0 <= i < |items| ensures Linked(l', all[i], all[i + 1]) {
      assert Linked(l, all[i], all[i + 1]);
    }
  }

  /** The neighbours of an item are in its own ring. */
  lemma NeighboursInRound(l: Links, head: Item, items: seq<Item>, item: Item)
    requires Ring(l, head, items) && item in Round(head, items)
    ensures item in l.next && item in l.prev
    ensures l.next[item] in Round(head, items) && l.prev[item] in Round(head, items)
  {
    var all := [head] + items;
    assert forall i :: 0 <= i < |all| ==> all[i] in Round(head, items);
    var k := IndexOf(all, item);
    var y := if k < |items| then all[k + 1] else head;
    var x := if k > 0 then all[k - 1] else all[|items|];
    assert Linked(l, item, y) by {
      if k < |items| { assert Linked(l, all[k], all[k + 1]); }
    }
    assert Linked(l, x, item) by {
      if k > 0 { assert Linked(l, all[k - 1], all[k]); }
    }
  }

  /** So a movable item has no neighbour in a ring that does not hold it. */
  lemma NeighboursElsewhere(l: Links, w: Rings, h: Item, item: Item)
    requires Valid(l, w) && Movable(l, w, item) && h in w && item !in Round(h, w[h])
    ensures item in l.next && item in l.prev
    ensures l.next[item] !in Round(h, w[h]) && l.prev[item] !in Round(h, w[h])
  {
    assert item in w ==> item in Round(item, w[item]);
    if InRings(w, item) {
      var g :| g in w && item in Round(g, w[g]);
      assert Round(g, w[g]) !! Round(h, w[h]);
      NeighboursInRound(l, g, w[g], item);
    }
  }

  lemma RingDistinct(l: Links, head: Item, items: seq<Item>)
    requires Ring(l, head, items)
    ensures Distinct(items) && head !in items
  {
    var all := [head] + items;
    forall i, j | 0 <= i < j < |items| ensures items[i] != items[j] {
      assert all[i + 1] != all[j + 1];
    }
    forall i | 0 <= i < |items| ensures items[i] != head {
      assert all[0] != all[i + 1];
    }
  }

  /** One ring after `remove(item)`. */
  lemma RingGone(l: Links, w: Rings, item: Item, h: Item)
    requires Valid(l, w) && Movable(l, w, item) && h in w && h != item
    ensures item in l.next && item in l.prev && Ring(Bypass(l, item), h, Without(w[h], item))
  {
    hide Ring, Movable;
    assert Ring(l, h, w[h]);
    if item in w[h] {
      NeighboursInRound(l, h, w[h], item);
      RingDistinct(l, h, w[h]);
      var k := IndexOf(w[h], item);
      WithoutAt(w[h], k);
      RingBypassed(l, h, w[h], k);
    } else {
      NeighboursElsewhere(l, w, h, item);
      WithoutAbsent(w[h], item);
      forall x | x in Round(h, w[h]) ensures x in l.next && x in l.prev {
        NeighboursInRound(l, h, w[h], x);
      }
      RingSame(l, Bypass(l, item), h, w[h]);
    }
  }

  lemma GoneRound(w: Rings, item: Item, h: Item)
    requires h in w && h != item
    ensures Round(h, Without(w[h], item)) == Round(h, w[h]) - {item}
  {
    WithoutElements(w[h], item);
  }

  /** `remove` takes the item out of its ring and leaves every other ring as it was. */
  lemma RemoveKeepsRings(l: Links, w: Rings, item: Item)
    requires Valid(l, w) && Movable(l, w, item) && item in l.next && item in l.prev
    ensures Valid(Bypass(l, item), Gone(w, item)) && Detached(Bypass(l, item), Gone(w, item), item)
  {
    hide Ring, Movable;
    var v := Gone(w, item);
    forall g, h | g in v && h in v && g != h ensures Round(g, v[g]) !! Round(h, v[h]) {
      GoneRound(w, item, g);
      GoneRound(w, item, h);
    }
    forall h | h in v ensures Ring(Bypass(l, item), h, v[h]) && item !in Round(h, v[h]) {
      RingGone(l, w, item, h);
      GoneRound(w, item, h);
    }
  }

  /** Linking a detached item in behind the head puts it last. */
  lemma RingInserted(l: Links, head: Item, items: seq<Item>, item: Item)
    requires Ring(l, head, items) && item !in Round(head, items) && item in l.next && item in l.prev
    ensures head in l.next && l.next[head] != null && l.next[head] in Round(head, items)
    ensures Ring(Insert(l, head, item), head, items + [item])
  {
    var all := [head] + items;
    var last := all[|items|];
    assert forall i :: 0 <= i < |all| ==> all[i] in Round(head, items);
    assert Linked(l, last, head);
    var l' := Insert(l, head, item);
    var more := [head] + (items + [item]);
    assert more == all + [item];
    forall i | 0 <= i < |items + [item]| ensures Linked(l', more[i], more[i + 1]) {
      if i < |items| {
        assert Linked(l, all[i], all[i + 1]);
        assert all[i] != last && all[i + 1] != head;
      }
    }
  }

  lemma InsertKeepsRings(l: Links, w: Rings, list: Item, item: Item)
    requires Valid(l, w) && list in w && Detached(l, w, item)
    ensures list in l.next && l.next[list] != null
    ensures Valid(Insert(l, list, item), w[list := w[list] + [item]])
  {
    hide Ring;
    var v := w[list := w[list] + [item]];
    assert Ring(l, list, w[list]);
    assert item !in Round(list, w[list]);
    RingInserted(l, list, w[list], item);
    assert Round(list, v[list]) == Round(list, w[list]) + {item};
    forall g, h | g in v && h in v && g != h ensures Round(g, v[g]) !! Round(h, v[h]) {
      assert Round(g, w[g]) !! Round(h, w[h]);
      assert item !in Round(g, w[g]) && item !in Round(h, w[h]);
    }
    forall h | h in v ensures Ring(Insert(l, list, item), h, v[h]) {
      if h != list {
        assert Ring(l, h, w[h]) && Round(h, w[h]) !! Round(list, w[list]) && item !in Round(h, w[h]);
        forall x | x in Round(h, w[h]) ensures x in l.next && x in l.prev {
          NeighboursInRound(l, h, w[h], x);
        }
        RingSame(l, Insert(l, list, item), h, w[h]);
      }
    }
  }

  /** `append` moves the item out of whichever ring held it to the end of the list. */
  lemma AppendKeepsRings(l: Links, w: Rings, list: Item, item: Item)
    requires Valid(l, w) && Movable(l, w, item) && item in l.next && item in l.prev && list in w && list != item
    ensures var l' := Bypass(l, item);
            && list in l'.next && l'.next[list] != null
            && Valid(Insert(l', list, item), Moved(w, list, item))
  {
    hide Ring, Movable, Bypass, Insert;
    RemoveKeepsRings(l, w, item);
    InsertKeepsRings(Bypass(l, item), Gone(w, item), list, item);
  }

  /** `init` makes an object that is in no ring the head of an empty one. */
  lemma InitKeepsRings(l: Links, w: Rings, list: Item)
    requires Valid(l, w) && !InRings(w, list)
    ensures Valid(Links(l.next[list := list], l.prev[list := list]), w[list := []])
  {
    hide Ring;
    var l' := Links(l.next[list := list], l.prev[list := list]);
    forall h | h in w ensures h != list && Ring(l', h, w[h]) {
      assert list !in Round(h, w[h]) && h in Round(h, w[h]);
      forall x | x in Round(h, w[h]) ensures x in l.next && x in l.prev {
        NeighboursInRound(l, h, w[h], x);
      }
      RingSame(l, l', h, w[h]);
    }
    EmptyRing(l', list);
  }

  lemma EmptyRing(l: Links, list: Item)
    requires list in l.next && list in l.prev && l.next[list] == list && l.prev[list] == list
    ensures Ring(l, list, [])
  {
    assert [list] + [] == [list];
  }

  // ------------------------------------------------------------------ objects in no ring

  /** Whatever is in no ring has null pointers. */
  ghost predicate Tidy(l: Links, w: Rings) {
    l.next.Keys == l.prev.Keys
    && forall x :: x in l.next ==> InRings(w, x) || (l.next[x] == null && l.prev[x] == null)
  }

  lemma MovableNeighbours(l: Links, w: Rings, item: Item)
    requires Valid(l, w) && Movable(l, w, item)
    ensures item in l.next && item in l.prev
    ensures l.next[item] != null ==> l.next[item] in l.next && InRings(w, l.next[item])
    ensures l.prev[item] != null ==> l.prev[item] in l.next && InRings(w, l.prev[item])
  {
    hide Ring;
    assert item in w ==> item in Round(item, w[item]);
    if InRings(w, item) {
      var g :| g in w && item in Round(g, w[g]);
      NeighboursInRound(l, g, w[g], item);
      NeighboursInRound(l, g, w[g], l.next[item]);
      NeighboursInRound(l, g, w[g], l.prev[item]);
    }
  }

  lemma StillInRings(l: Links, w: Rings, item: Item, x: Item)
    requires Movable(l, w, item) && InRings(w, x) && x != item
    ensures InRings(Gone(w, item), x)
  {
    var h: Item :| h in w && x in Round(h, w[h]);
    assert h != item;
    GoneRound(w, item, h);
    assert h in Gone(w, item) && x in Round(h, Gone(w, item)[h]);
  }

  lemma RemoveTidy(l: Links, w: Rings, item: Item)
    requires Valid(l, w) && Movable(l, w, item) && Tidy(l, w) && item in l.next && item in l.prev
    ensures Tidy(Bypass(l, item), Gone(w, item))
  {
    hide InRings, Valid, Movable, Gone;
    MovableNeighbours(l, w, item);
    var l', v := Bypass(l, item), Gone(w, item);
    assert l'.next.Keys == l.next.Keys && l'.prev.Keys == l.prev.Keys;
    forall x | x in l'.next ensures InRings(v, x) || (l'.next[x] == null && l'.prev[x] == null) {
      if x != item && InRings(w, x) {
        StillInRings(l, w, item, x);
      }
    }
  }

  lemma AlsoInRings(w: Rings, list: Item, item: Item, x: Item)
    requires list in w && (InRings(w, x) || x == item)
    ensures InRings(w[list := w[list] + [item]], x)
  {
    var v := w[list := w[list] + [item]];
    if x == item {
      assert x in Round(list, v[list]);
    } else {
      var h: Item :| h in w && x in Round(h, w[h]);
      assert h in v && x in Round(h, v[h]);
    }
  }

  lemma HeadNeighbour(l: Links, w: Rings, list: Item)
    requires Valid(l, w) && list in w
    ensures list in l.next && InRings(w, list)
    ensures l.next[list] != null && l.next[list] in l.next && InRings(w, l.next[list])
  {
    hide Ring;
    assert list in Round(list, w[list]);
    NeighboursInRound(l, list, w[list], list);
    NeighboursInRound(l, list, w[list], l.next[list]);
  }

  lemma InsertTidy(l: Links, w: Rings, list: Item, item: Item)
    requires Valid(l, w) && Tidy(l, w) && list in w && Detached(l, w, item) && list in l.next && l.next[list] != null
    ensures Tidy(Insert(l, list, item), w[list := w[list] + [item]])
  {
    hide InRings, Valid;
    HeadNeighbour(l, w, list);
    var l', v := Insert(l, list, item), w[list := w[list] + [item]];
    assert l'.next.Keys == l.next.Keys && l'.prev.Keys == l.prev.Keys;
    forall x | x in l'.next ensures InRings(v, x) || (l'.next[x] == null && l'.prev[x] == null) {
      if InRings(w, x) || x == item {
        AlsoInRings(w, list, item, x);
      }
    }
  }

  lemma AppendTidy(l: Links, w: Rings, list: Item, item: Item)
    requires Valid(l, w) && Movable(l, w, item) && Tidy(l, w) && item in l.next && item in l.prev && list in w
    requires list != item
    requires var l' := Bypass(l, item); list in l'.next && l'.next[list] != null
    ensures Tidy(Insert(Bypass(l, item), list, item), Moved(w, list, item))
  {
    hide Ring, Movable, Bypass, Insert, Tidy;
    RemoveKeepsRings(l, w, item);
    RemoveTidy(l, w, item);
    InsertTidy(Bypass(l, item), Gone(w, item), list, item);
  }

  lemma InitTidy(l: Links, w: Rings, list: Item)
    requires Tidy(l, w) && list !in w
    ensures Tidy(Links(l.next[list := list], l.prev[list := list]), w[list := []])
  {
    var v := w[list := []];
    assert list in v && list in Round(list, v[list]);
    forall x | x in l.next && InRings(w, x) ensures InRings(v, x) {
      var h: Item :| h in w && x in Round(h, w[h]);
      assert h in v && x in Round(h, v[h]);
    }
  }

  /** More objects, in no ring yet, change nothing. */
  lemma MoreObjects(l: Links, l': Links, w: Rings)
    requires Valid(l, w) && Tidy(l, w) && l'.next.Keys == l'.prev.Keys && l.next.Keys <= l'.next.Keys
    requires forall x :: x in l.next ==> l'.next[x] == l.next[x] && l'.prev[x] == l.prev[x]
    requires forall x :: x in l'.next && x !in l.next ==> l'.next[x] == null && l'.prev[x] == null
    ensures Valid(l', w) && Tidy(l', w)
  {
    hide Ring;
    forall h | h in w ensures Ring(l', h, w[h]) {
      forall x | x in Round(h, w[h]) ensures x in l.next && x in l.prev {
        NeighboursInRound(l, h, w[h], x);
      }
      RingSame(l, l', h, w[h]);
    }
  }

  /** Where an object's next pointer leads tells where it is. */
  lemma NextTells(l: Links, w: Rings, x: Item)
    requires Valid(l, w) && Tidy(l, w) && x in l.next
    ensures l.next[x] == null <==> !InRings(w, x)
    ensures x in w ==> (l.next[x] == x <==> w[x] == [])
    ensures x !in w ==> l.next[x] != x
  {
    assert forall g :: g in w ==> g in Round(g, w[g]);
    if InRings(w, x) {
      var h: Item :| h in w && x in Round(h, w[h]);
      NeighboursInRound(l, h, w[h], x);
      if x == h {
        RingEnds(l, h, w[h]);
      } else {
        var all := [h] + w[h];
        var k := IndexOf(w[h], x);
        assert Linked(l, all[k], all[k + 1]) && all[k] != all[k + 1];
      }
    }
  }

  // ------------------------------------------------------------------ the code

  /** The pointers of objects in `all` lead only to objects in `all`. */
  ghost predicate Closed(all: set<Item>)
    reads all`idleNext, all`idlePrev
  {
    forall x :: x in all ==> (x.idleNext == null || x.idleNext in all) && (x.idlePrev == null || x.idlePrev in all)
  }

  method Init(list: Item, ghost all: set<Item>, ghost w: Rings)
    requires list in all && Closed(all) && Valid(LinksOf(all), w) && Tidy(LinksOf(all), w) && !InRings(w, list)
    modifies list`idleNext, list`idlePrev
    ensures Closed(all) && Valid(LinksOf(all), w[list := []]) && Tidy(LinksOf(all), w[list := []])
  {
    assert list in w ==> list in Round(list, w[list]);
    InitKeepsRings(LinksOf(all), w, list);
    InitTidy(LinksOf(all), w, list);
    ghost var l := LinksOf(all);
    list.idleNext := list;
    list.idlePrev := list;
    assert LinksOf(all) == Links(l.next[list := list], l.prev[list := list]);
  }

  /** `peek`: the most idle item. */
  method Peek(list: Item, ghost all: set<Item>, ghost w: Rings) returns (first: Item?)
    requires list in all && list in w && Valid(LinksOf(all), w)
    ensures first == if w[list] == [] then null else w[list][0]
  {
    RingEnds(LinksOf(all), list, w[list]);
    if list.idlePrev == list { return null; }
    return list.idlePrev;
  }

  lemma RingEnds(l: Links, head: Item, items: seq<Item>)
    requires Ring(l, head, items)
    ensures head in l.prev && l.prev[head] == (if items == [] then head else items[0])
    ensures head in l.next && l.next[head] == (if items == [] then head else items[|items| - 1])
    ensures items != [] ==> items[0] != head && items[|items| - 1] != head
  {
    var all := [head] + items;
    if items != [] {
      assert Linked(l, all[0], all[1]);
    }
  }

  method IsEmpty(list: Item, ghost all: set<Item>, ghost w: Rings) returns (empty: bool)
    requires list in all && list in w && Valid(LinksOf(all), w)
    ensures empty <==> w[list] == []
  {
    RingEnds(LinksOf(all), list, w[list]);
    return list.idleNext == list;
  }

  method Remove(item: Item, ghost all: set<Item>, ghost w: Rings)
    requires item in all && Closed(all) && Valid(LinksOf(all), w) && Tidy(LinksOf(all), w)
    requires Movable(LinksOf(all), w, item)
    modifies all`idleNext, all`idlePrev
    ensures Closed(all) && Valid(LinksOf(all), Gone(w, item)) && Tidy(LinksOf(all), Gone(w, item))
    ensures Detached(LinksOf(all), Gone(w, item), item)
  {
    hide Valid, Movable, Detached;
    ghost var l := LinksOf(all);
    RemoveKeepsRings(l, w, item);
    RemoveTidy(l, w, item);
    RemovePointers(item, all);
  }

  /** Lines 47-58. */
  method RemovePointers(item: Item, ghost all: set<Item>)
    requires item in all && Closed(all)
    modifies all`idleNext, all`idlePrev
    ensures Closed(all) && LinksOf(all) == Bypass(old(LinksOf(all)), item)
  {
    if item.idleNext != null {
      SetPrev(item.idleNext, item.idlePrev, all);
    }
    // When the item is alone in its ring, this reads the pointer that was just written: the same one.
    if item.idlePrev != null {
      SetNext(item.idlePrev, item.idleNext, all);
    }
    SetNext(item, null, all);
    SetPrev(item, null, all);
  }

  /** `x._idleNext = v`. */
  method SetNext(x: Item, v: Item?, ghost all: set<Item>)
    requires x in all && Closed(all) && (v == null || v in all)
    modifies x`idleNext
    ensures x.idleNext == v && Closed(all)
    ensures LinksOf(all) == var l := old(LinksOf(all)); l.(next := l.next[x := v])
  {
    x.idleNext := v;
    assert LinksOf(all).next == old(LinksOf(all)).next[x := v];
  }

  /** `x._idlePrev = v`. */
  method SetPrev(x: Item, v: Item?, ghost all: set<Item>)
    requires x in all && Closed(all) && (v == null || v in all)
    modifies x`idlePrev
    ensures x.idlePrev == v && Closed(all)
    ensures LinksOf(all) == var l := old(LinksOf(all)); l.(prev := l.prev[x := v])
  {
    x.idlePrev := v;
    assert LinksOf(all).prev == old(LinksOf(all)).prev[x := v];
  }

  /** `shift`: on an empty list the head itself is removed and returned. */
  method Shift(list: Item, ghost all: set<Item>, ghost w: Rings) returns (first: Item)
    requires list in all && Closed(all) && list in w && Valid(LinksOf(all), w) && Tidy(LinksOf(all), w)
    modifies all`idleNext, all`idlePrev
    ensures first == if w[list] == [] then list else w[list][0]
    ensures Closed(all) && Valid(LinksOf(all), Gone(w, first)) && Tidy(LinksOf(all), Gone(w, first))
    ensures Detached(LinksOf(all), Gone(w, first), first)
  {
    RingEnds(LinksOf(all), list, w[list]);
    first := list.idlePrev;
    FirstMovable(LinksOf(all), w, list);
    Remove(first, all, w);
  }

  lemma FirstMovable(l: Links, w: Rings, list: Item)
    requires Valid(l, w) && list in w
    ensures Movable(l, w, if w[list] == [] then list else w[list][0])
  {
    if w[list] != [] {
      var first := w[list][0];
      assert first in Round(list, w[list]);
      RingDistinct(l, list, w[list]);
      assert forall h :: h in w ==> h in Round(h, w[h]);
    }
  }

  method Append(list: Item, item: Item, ghost all: set<Item>, ghost w: Rings)
    requires item in all && list in all && list != item && list in w
    requires Closed(all) && Valid(LinksOf(all), w) && Tidy(LinksOf(all), w) && Movable(LinksOf(all), w, item)
    modifies all`idleNext, all`idlePrev
    ensures Closed(all) && Valid(LinksOf(all), Moved(w, list, item)) && Tidy(LinksOf(all), Moved(w, list, item))
  {
    hide Valid, Movable;
    AppendKeepsRings(LinksOf(all), w, list, item);
    AppendTidy(LinksOf(all), w, list, item);
    RemovePointers(item, all);
    InsertPointers(list, item, all);
  }

  /** Lines 65-68. */
  method InsertPointers(list: Item, item: Item, ghost all: set<Item>)
    requires list in all && item in all && list != item && Closed(all) && list.idleNext != null
    modifies all`idleNext, all`idlePrev
    ensures Closed(all) && LinksOf(all) == Insert(old(LinksOf(all)), list, item)
  {
    SetNext(item, list.idleNext, all);
    SetPrev(list.idleNext, item, all);
    SetPrev(item, list, all);
    SetNext(list, item, all);
  }
}
