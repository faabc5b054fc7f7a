/**
 * lib/timers.js: idle timeouts on linked rings, one list and one watcher for each timeout value. Every
 * operation is proved to do to the rings, the fields and the watchers what TimerSpec says.
 */
module Timers {
  import opened Common
  import L = LinkList
  import S = TimerSpec
  import Laws = TimerLaws

  type Item = L.Item

  // ------------------------------------------------------------------ the heap, read off as values

  /** The timer fields of some objects. */
  datatype Fields = Fields(timeout: map<Item, Option<int>>, start: map<Item, int>, deadline: map<Item, Option<int>>)

  ghost function FieldsOf(all: set<Item>): Fields
    reads all`idleTimeout, all`idleStart, all`deadline
  {
    Fields(map x | x in all :: x.idleTimeout, map x | x in all :: x.idleStart, map x | x in all :: x.deadline)
  }

  ghost function Heads(lists: map<int, Item>): set<Item> {
    set m | m in lists :: lists[m]
  }

  /** How the rings spell out the abstract lists. */
  ghost predicate Matches(heads: map<int, Item>, rings: L.Rings, s: S.State) {
    && heads.Keys == s.lists.Keys
    && (forall m, n :: m in heads && n in heads && m != n ==> heads[m] != heads[n])
    && (forall m :: m in heads ==> heads[m] in rings && rings[heads[m]] == s.lists[m].items)
    && (forall x :: x in s.idle ==> x in rings && rings[x] == [] && x !in Heads(heads))
    && rings.Keys == Heads(heads) + s.idle
  }

  /** How the fields spell out the rest: all objects are list heads or items of the program. */
  ghost predicate Agrees(heads: map<int, Item>, all: set<Item>, f: Fields, s: S.State) {
    && Heads(heads) <= all && f.timeout.Keys == f.start.Keys == f.deadline.Keys == all
    && s.idle <= all - Heads(heads)
    && TimeoutsAgree(all - Heads(heads), f.timeout, s.timeout)
    && StartsAgree(all - Heads(heads), f.start, s.start)
    && (forall m :: m in heads && m in s.lists ==>
          heads[m] in f.deadline && f.deadline[heads[m]] == s.lists[m].deadline)
  }

  ghost predicate TimeoutsAgree(items: set<Item>, f: map<Item, Option<int>>, t: map<Item, int>) {
    t.Keys <= items && forall x :: x in items && x in f ==> f[x] == if x in t then Some(t[x]) else None
  }

  ghost predicate StartsAgree(items: set<Item>, f: map<Item, int>, t: map<Item, int>) {
    t.Keys <= items && forall x :: x in t && x in f ==> f[x] == t[x]
  }

  // ------------------------------------------------------------------ what the operations do to these values

  lemma DropMatches(heads: map<int, Item>, rings: L.Rings, s: S.State, item: Item)
    requires Matches(heads, rings, s) && item !in Heads(heads)
    ensures Matches(heads, L.Gone(rings, item), S.Drop(s, item))
  {
    hide L.Without;
    L.WithoutAbsent([], item);
    var rings', t := L.Gone(rings, item), S.Drop(s, item);
    forall m | m in heads ensures heads[m] in rings' && rings'[heads[m]] == t.lists[m].items {
      assert heads[m] in Heads(heads);
      assert rings[heads[m]] == s.lists[m].items;
    }
    forall x | x in t.idle ensures x in rings' && rings'[x] == [] && x !in Heads(heads) {
      assert x in s.idle;
    }
    assert t.lists.Keys == s.lists.Keys;
    assert rings'.Keys == rings.Keys - {item};
  }

  lemma PushMatches(heads: map<int, Item>, rings: L.Rings, s: S.State, ms: int, item: Item)
    requires Matches(heads, rings, s) && item !in Heads(heads) && ms in heads
    ensures heads[ms] in rings && heads[ms] != item
    ensures Matches(heads, L.Moved(rings, heads[ms], item), S.Push(s, ms, item))
  {
    hide L.Without;
    DropMatches(heads, rings, s, item);
    assert heads[ms] in Heads(heads);
  }

  lemma WatcherMatches(heads: map<int, Item>, rings: L.Rings, s: S.State, ms: int, deadline: Option<int>)
    requires Matches(heads, rings, s) && ms in s.lists
    ensures Matches(heads, rings, S.SetWatcher(s, ms, deadline))
  {
  }

  lemma EnrollMatches(heads: map<int, Item>, rings: L.Rings, s: S.State, item: Item, ms: int)
    requires Matches(heads, rings, s) && item !in Heads(heads) && item !in rings
    ensures Matches(heads, rings[item := []], s.(timeout := s.timeout[item := ms], idle := s.idle + {item}))
  {
    assert forall m :: m in heads ==> heads[m] in Heads(heads);
  }

  lemma HeadsMore(heads: map<int, Item>, ms: int, list: Item)
    requires ms !in heads
    ensures Heads(heads[ms := list]) == Heads(heads) + {list}
  {
    var heads' := heads[ms := list];
    forall x | x in Heads(heads) ensures x in Heads(heads') {
      var m :| m in heads && heads[m] == x;
      assert m in heads' && heads'[m] == x;
    }
    assert ms in heads' && heads'[ms] == list;
  }

  lemma NewListMatches(heads: map<int, Item>, rings: L.Rings, s: S.State, ms: int, list: Item)
    requires Matches(heads, rings, s) && list !in rings && ms !in heads
    ensures Matches(heads[ms := list], rings[list := []], S.EnsureList(s, ms))
  {
    var heads' := heads[ms := list];
    HeadsMore(heads, ms, list);
    assert forall m :: m in heads ==> heads[m] in Heads(heads);
  }

  lemma WatcherAgrees(heads: map<int, Item>, all: set<Item>, f: Fields, s: S.State, ms: int,
      deadline: Option<int>, rings: L.Rings)
    requires Agrees(heads, all, f, s) && Matches(heads, rings, s) && ms in heads
    ensures Agrees(heads, all, f.(deadline := f.deadline[heads[ms] := deadline]), S.SetWatcher(s, ms, deadline))
  {
    assert heads[ms] in Heads(heads);
  }

  /** An item that is not a list head is in a ring exactly when it is enrolled or in a list. */
  lemma PlacedInRings(heads: map<int, Item>, rings: L.Rings, s: S.State, x: Item)
    requires Matches(heads, rings, s) && x !in Heads(heads)
    ensures L.InRings(rings, x) <==> S.Placed(s, x)
  {
    if S.Placed(s, x) {
      if x in s.idle {
        assert x in L.Round(x, rings[x]);
      } else {
        var m :| m in s.lists && x in s.lists[m].items;
        assert x in L.Round(heads[m], rings[heads[m]]);
      }
    }
    if L.InRings(rings, x) {
      var h: Item :| h in rings && x in L.Round(h, rings[h]);
      if h !in s.idle {
        assert h in Heads(heads);
        var m :| m in heads && heads[m] == h;
        assert x in s.lists[m].items;
      }
    }
  }

  lemma ItemMovable(l: L.Links, heads: map<int, Item>, rings: L.Rings, s: S.State, x: Item)
    requires Matches(heads, rings, s) && L.Tidy(l, rings) && x !in Heads(heads) && x in l.next
    ensures L.Movable(l, rings, x)
  {
  }

  // ------------------------------------------------------------------ the code

  method WriteDeadline(x: Item, v: Option<int>, ghost all: set<Item>)
    requires x in all
    modifies x`deadline
    ensures FieldsOf(all) == var f := old(FieldsOf(all)); f.(deadline := f.deadline[x := v])
  {
    x.deadline := v;
    assert FieldsOf(all).deadline == old(FieldsOf(all)).deadline[x := v];
  }

  method WriteTimeout(x: Item, v: Option<int>, ghost all: set<Item>)
    requires x in all
    modifies x`idleTimeout
    ensures x.idleTimeout == v
    ensures FieldsOf(all) == var f := old(FieldsOf(all)); f.(timeout := f.timeout[x := v])
  {
    x.idleTimeout := v;
    assert FieldsOf(all).timeout == old(FieldsOf(all)).timeout[x := v];
  }

  method WriteStart(x: Item, v: int, ghost all: set<Item>)
    requires x in all
    modifies x`idleStart
    ensures FieldsOf(all) == var f := old(FieldsOf(all)); f.(start := f.start[x := v])
  {
    x.idleStart := v;
    assert FieldsOf(all).start == old(FieldsOf(all)).start[x := v];
  }

  lemma InLinks(all: set<Item>, x: Item)
    requires x in all
    ensures x in L.LinksOf(all).next && L.LinksOf(all).next[x] == x.idleNext
  {
  }

  class Timers {
    var lists: map<int, Item>
    var now: int
    ghost var all: set<Item>
    ghost var rings: L.Rings
    ghost var s: S.State

    ghost predicate Valid()
      reads this, all
    {
      && L.Closed(all) && L.Valid(L.LinksOf(all), rings) && L.Tidy(L.LinksOf(all), rings)
      && Matches(lists, rings, s) && Agrees(lists, all, FieldsOf(all), s) && s.now == now
    }

    /** An object of the program, not one of the module's lists. */
    ghost predicate IsItem(x: Item)
      reads this
    {
      x in all && x !in Heads(lists)
    }

    constructor (now: int)
      ensures Valid() && s == S.State(map[], map[], map[], {}, now) && all == {}
    {
      lists, this.now, all, rings := map[], now, {}, map[];
      s := S.State(map[], map[], map[], {}, now);
    }

    /** `list.stop()` and `list.again(...)`. */
    method SetDeadline(ms: int, deadline: Option<int>)
      requires Valid() && ms in lists
      modifies this`s, all`deadline
      ensures Valid() && ms in old(s).lists && s == S.SetWatcher(old(s), ms, deadline)
    {
      hide L.Valid, L.Tidy, L.Closed, L.LinksOf, Matches, Agrees, FieldsOf;
      HeadKnown(ms);
      WatcherMatches(lists, rings, s, ms, deadline);
      WatcherAgrees(lists, all, FieldsOf(all), s, ms, deadline, rings);
      WriteDeadline(lists[ms], deadline, all);
      s := S.SetWatcher(s, ms, deadline);
    }

    lemma HeadKnown(ms: int)
      requires Valid() && ms in lists
      ensures lists[ms] in all && lists[ms] in rings && ms in s.lists
    {
      assert lists[ms] in Heads(lists);
    }

    method ListIsEmpty(ms: int) returns (empty: bool)
      requires Valid() && ms in lists
      ensures ms in s.lists && (empty <==> s.lists[ms].items == [])
    {
      hide L.Valid, L.Tidy, L.Closed, L.LinksOf, Agrees, FieldsOf;
      HeadKnown(ms);
      ListEmpty(ms);
      empty := L.IsEmpty(lists[ms], all, rings);
    }

    /** `unenroll`. */
    method Unenroll(item: Item)
      requires Valid() && IsItem(item)
      modifies this`rings, this`s, all
      ensures Valid() && s == S.Unenroll(old(s), item)
    {
      hide L.Valid, L.Tidy, L.Closed, Matches, Agrees;
      TakeOut(item);
      TimeoutField(item);
      if item.idleTimeout.Some? && item.idleTimeout.value in lists {
        var ms := item.idleTimeout.value;
        var empty := ListIsEmpty(ms);
        if empty {
          SetDeadline(ms, None);
        }
      }
      KeysKnown();
    }

    lemma KeysKnown()
      requires Valid()
      ensures lists.Keys == s.lists.Keys
    {
    }

    lemma ListEmpty(ms: int)
      requires Valid() && ms in lists
      ensures lists[ms] in rings && ms in s.lists && rings[lists[ms]] == s.lists[ms].items
    {
    }

    lemma TimeoutField(item: Item)
      requires Valid() && IsItem(item)
      ensures item.idleTimeout == if item in s.timeout then Some(s.timeout[item]) else None
    {
      assert item in FieldsOf(all).timeout;
    }

    /** `L.remove(item)`. */
    method TakeOut(item: Item)
      requires Valid() && IsItem(item)
      modifies this`rings, this`s, all`idleNext, all`idlePrev
      ensures Valid() && s == S.Drop(old(s), item)
    {
      hide L.Valid, L.Tidy, L.Closed, L.LinksOf, Matches, Agrees, FieldsOf, L.Movable;
      InLinks(all, item);
      ItemMovable(L.LinksOf(all), lists, rings, s, item);
      DropMatches(lists, rings, s, item);
      DropAgrees(lists, all, FieldsOf(all), s, item);
      L.Remove(item, all, rings);
      rings, s := L.Gone(rings, item), S.Drop(s, item);
    }

    /** Nothing the program owns has become a list, and lists are new objects. */
    twostate predicate Grown()
      reads this
    {
      && old(all) <= all && fresh(all - old(all))
      && forall x :: x in old(all) && x !in Heads(old(lists)) ==> x !in Heads(lists)
    }

    /** An object of the program's own, in no ring. */
    method NewItem() returns (item: Item)
      requires Valid()
      modifies this`all
      ensures fresh(item) && all == old(all) + {item} && Valid() && IsItem(item) && item !in s.timeout
      ensures !S.Placed(s, item)
    {
      hide L.Valid, L.Tidy, L.Closed, L.LinksOf, Matches, Agrees, FieldsOf, S.Placed;
      item := new L.Item();
      NewObject(item);
      all := all + {item};
      FreshItem(item);
    }

    lemma NewObject(x: Item)
      requires Valid() && x !in all && x.idleNext == null && x.idlePrev == null && x.idleTimeout == None
      requires x.deadline == None
      ensures var more := all + {x};
              && L.Closed(more) && L.Valid(L.LinksOf(more), rings) && L.Tidy(L.LinksOf(more), rings)
              && Agrees(lists, more, FieldsOf(more), s) && x !in Heads(lists)
    {
      hide L.Valid, L.Tidy, L.LinksOf, Matches, Agrees, FieldsOf;
      MoreLinks(all, x, rings);
      MoreFields(all, x);
      AllKeys(all);
      AgreesMore(lists, all, FieldsOf(all), FieldsOf(all + {x}), s, x);
    }

    lemma FreshItem(x: Item)
      requires Valid() && IsItem(x) && x.idleNext == null && x.idleTimeout == None
      ensures x !in s.timeout && !S.Placed(s, x) && x !in rings
    {
      hide L.Valid, L.Tidy, Matches, Agrees;
      TimeoutField(x);
      Whereabouts(x);
    }

    /** What the next pointer of an item tells about it. */
    lemma Whereabouts(x: Item)
      requires Valid() && IsItem(x)
      ensures x.idleNext == null <==> !S.Placed(s, x)
      ensures x.idleNext == x <==> x in s.idle
      ensures x in rings <==> x in s.idle
      ensures L.InRings(rings, x) <==> S.Placed(s, x)
    {
      hide L.Valid, L.Tidy, Agrees;
      InLinks(all, x);
      L.NextTells(L.LinksOf(all), rings, x);
      PlacedInRings(lists, rings, s, x);
    }

    /** `enroll`. */
    method Enroll(item: Item, ms: int)
      requires Valid() && IsItem(item)
      modifies this`rings, this`s, all
      ensures Valid() && s == S.Enroll(old(s), item, ms)
    {
      hide L.Valid, L.Tidy, L.Closed, L.LinksOf, Matches, Agrees, FieldsOf, S.Unenroll, S.Placed;
      Whereabouts(item);
      if item.idleNext != null {
        Unenroll(item);
        UnenrollTakesOut(old(s), item);
      }
      Whereabouts(item);
      ghost var f := FieldsOf(all);
      WriteTimeout(item, Some(ms), all);
      EnrollMatches(lists, rings, s, item, ms);
      EnrollAgrees(lists, all, f, s, item, ms);
      s := s.(timeout := s.timeout[item := ms], idle := s.idle + {item});
      L.Init(item, all, rings);
      rings := rings[item := []];
    }

    /** The list for a timeout value, made on demand (lines 58-64). */
    method EnsureList(ms: int)
      requires Valid()
      modifies this`lists, this`all, this`rings, this`s
      ensures Valid() && Grown() && ms in lists && s == S.EnsureList(old(s), ms)
    {
      hide L.Valid, L.Tidy, L.Closed, L.LinksOf, Matches, Agrees, FieldsOf;
      KeysKnown();
      if ms !in lists {
        var list := new L.Item();
        NewObject(list);
        NotInRings(list);
        all := all + {list};
        L.Init(list, all, rings);
        NewListMatches(lists, rings, s, ms, list);
        NewListAgrees(lists, all, FieldsOf(all), s, ms, list);
        HeadsMore(lists, ms, list);
        lists, rings, s := lists[ms := list], rings[list := []], S.EnsureList(s, ms);
      }
    }

    lemma NotInRings(x: Item)
      requires Valid() && x !in all
      ensures !L.InRings(rings, x) && x !in rings && x !in s.timeout && x !in s.idle && x !in s.start
      ensures FieldsOf(all + {x}).deadline[x] == x.deadline
    {
      hide L.Ring;
      assert forall g :: g in rings ==> g in L.Round(g, rings[g]);
      if L.InRings(rings, x) {
        var h: Item :| h in rings && x in L.Round(h, rings[h]);
        L.NeighboursInRound(L.LinksOf(all), h, rings[h], x);
      }
    }

    /** `L.append(list, item)`. */
    method PutLast(ms: int, item: Item)
      requires Valid() && IsItem(item) && ms in lists
      modifies this`rings, this`s, all`idleNext, all`idlePrev
      ensures Valid() && ms in old(s).lists && s == S.Push(old(s), ms, item)
    {
      hide L.Valid, L.Tidy, L.Closed, L.LinksOf, Matches, Agrees, FieldsOf, L.Movable;
      KeysKnown();
      HeadKnown(ms);
      InLinks(all, item);
      ItemMovable(L.LinksOf(all), lists, rings, s, item);
      PushMatches(lists, rings, s, ms, item);
      PushAgrees(lists, all, FieldsOf(all), s, ms, item);
      L.Append(lists[ms], item, all, rings);
      rings, s := L.Moved(rings, lists[ms], item), S.Push(s, ms, item);
    }

    /** `item._idleStart = new Date()`, and in `insert` also the timeout. */
    method Stamp(item: Item)
      requires Valid() && IsItem(item)
      modifies this`s, item`idleStart
      ensures Valid() && s == old(s).(start := old(s).start[item := old(s).now])
    {
      hide L.Valid, L.Tidy, L.Closed, L.LinksOf, Matches, Agrees, FieldsOf;
      StampMatches(lists, rings, s, item);
      StampAgrees(lists, all, FieldsOf(all), s, item);
      WriteStart(item, now, all);
      s := s.(start := s.start[item := s.now]);
    }

    /** `insert`, for a timeout that is not negative. */
    method Insert(item: Item, ms: int)
      requires Valid() && IsItem(item) && item in s.idle && ms >= 0 && item in s.timeout && s.timeout[item] == ms
      modifies this`lists, this`all, this`rings, this`s, all
      ensures Valid() && Grown() && s == S.Insert(old(s), item, ms)
    {
      hide L.Valid, L.Tidy, L.Closed, L.LinksOf, Matches, Agrees, FieldsOf, S.Push, Heads;
      // The timeout is written too; `active` passes the one the item already has.
      assert s.timeout[item := ms] == s.timeout;
      Stamp(item);
      EnsureList(ms);
      KeysKnown();
      var empty := ListIsEmpty(ms);
      if empty {
        SetDeadline(ms, Some(now + ms));
      }
      PutLast(ms, item);
    }

    /** `active`. */
    method Active(item: Item, ghost self: S.Firing)
      requires Valid() && IsItem(item) && S.MayActivate(s, item, self)
      modifies this`lists, this`all, this`rings, this`s, all
      ensures Valid() && Grown() && s == S.Active(old(s), item, self)
    {
      hide L.Valid, L.Tidy, L.Closed, L.LinksOf, Matches, Agrees, FieldsOf, S.Push, S.Insert, Heads;
      TimeoutField(item);
      KeysKnown();
      Whereabouts(item);
      var msecs := item.idleTimeout;
      if msecs.Some? && msecs.value >= 0 {
        if item.idleNext == item {
          Insert(item, msecs.value);
        } else {
          Stamp(item);
          PutLast(msecs.value, item);
        }
      }
    }

    /** Whether a call of `active` respects the discipline; items in a list are in the list of their timeout. */
    method MayActivate(item: Item, self: S.Firing, ghost busy: set<int>) returns (ok: bool)
      requires Valid() && IsItem(item) && S.Inv(s, busy)
      ensures ok == S.MayActivate(s, item, self)
    {
      hide L.Valid, L.Tidy, L.Closed, L.LinksOf, Matches, Agrees, FieldsOf;
      TimeoutField(item);
      KeysKnown();
      Whereabouts(item);
      InItsList(s, busy, item);
      var t := item.idleTimeout;
      ok := t.Some? && (item.idleNext == item || t.value < 0
                        || (t.value in lists && (item.idleNext != null || self == S.Firing(item, t.value))));
    }

    /** One call made by the program. */
    method Do(op: S.Op, self: S.Firing, ghost busy: set<int>)
      requires Valid() && IsItem(op.item) && S.Inv(s, busy) && (self.Firing? ==> self.ms in busy)
      modifies this`lists, this`all, this`rings, this`s, all
      ensures Valid() && Grown() && s == S.Do(old(s), op, self)
    {
      hide L.Valid, L.Tidy, L.Closed, L.LinksOf, Matches, Agrees;
      hide FieldsOf, S.Active, S.Unenroll, S.Enroll, Heads, S.Inv, S.MayActivate;
      match op {
        case OpActive(item) =>
          var ok := MayActivate(item, self, busy);
          if ok { Active(item, self); }
        case OpUnenroll(item) => Unenroll(item);
        case OpEnroll(item, ms) => Enroll(item, ms);
      }
    }

    /** The items a program's calls are about are its own. */
    ghost predicate OpsOk(ops: seq<S.Op>)
      reads this
    {
      forall j :: 0 <= j < |ops| ==> IsItem(ops[j].item)
    }

    /** A timeout function: any sequence of calls. */
    method DoAll(ops: seq<S.Op>, self: S.Firing, ghost busy: set<int>)
      requires Valid() && OpsOk(ops) && S.Inv(s, busy) && (self.Firing? ==> self.ms in busy)
      modifies this`lists, this`all, this`rings, this`s, all
      ensures Valid() && Grown() && s == S.DoAll(old(s), ops, self)
    {
      hide Valid, S.Do, S.Inv;
      for j := 0 to |ops|
        invariant Valid() && Grown() && S.Inv(s, busy) && OpsOk(ops)
        invariant S.DoAll(s, ops[j..], self) == S.DoAll(old(s), ops, self)
      {
        assert ops[j..][1..] == ops[j + 1..];
        S.DoKeeps(s, ops[j], self, busy);
        Do(ops[j], self, busy);
      }
      assert ops[|ops|..] == [];
    }

    /** The most idle item of a list, and what its fields say. */
    method PeekList(ms: int) returns (first: L.Item?)
      requires Valid() && ms in lists && S.Inv(s, {ms})
      ensures ms in s.lists && S.ListOk(s, ms)
      ensures first == if s.lists[ms].items == [] then null else s.lists[ms].items[0]
      ensures first != null ==> IsItem(first) && first in s.start && first.idleStart == s.start[first]
    {
      hide L.Valid, L.Tidy, L.Closed, L.LinksOf;
      HeadKnown(ms);
      ListEmpty(ms);
      S.ListInOrder(s, ms);
      first := L.Peek(lists[ms], all, rings);
      if first != null {
        S.MemberOk(s, {ms}, ms, first);
        assert first in FieldsOf(all).start;
      }
    }

    /** One round of the loop in the callback; null when the loop is left. */
    method FireOne(ms: int, ops: seq<S.Op>) returns (first: L.Item?)
      requires Valid() && ms in lists && S.Inv(s, {ms}) && OpsOk(ops)
      modifies this`lists, this`all, this`rings, this`s, all
      ensures Valid() && Grown() && ms in old(s).lists && S.ListOk(old(s), ms)
      ensures first == null ==> !S.FrontDue(old(s), ms) && s == S.Settled(old(s), ms)
      ensures first != null ==>
                S.FrontDue(old(s), ms) && first == old(s).lists[ms].items[0] && s == S.Fired(old(s), ms, ops)
    {
      hide L.Valid, L.Tidy, L.Closed, L.LinksOf, Matches, Agrees, FieldsOf, S.Inv, S.Drop, S.DoAll, Heads, S.ListOk;
      KeysKnown();
      S.ListInOrder(s, ms);
      first := PeekList(ms);
      if first == null {
        SetDeadline(ms, None);
      } else {
        var diff := now - first.idleStart;
        if diff + 1 < ms {
          SetDeadline(ms, Some(now + (ms - diff)));
          first := null;
        } else {
          S.DropBusy(s, ms);
          TakeOut(first);
          DoAll(ops, S.Firing(first, ms), {ms});
        }
      }
    }

    /** `list.callback`, lines 66-90. */
    method ListCallback(ms: int, script: S.Script) returns (fired: seq<Item>)
      requires Valid() && ms in lists && ms >= 2 && S.Inv(s, {ms}) && ms in s.lists && forall k: nat :: OpsOk(script(k))
      modifies this`lists, this`all, this`rings, this`s, all
      ensures Valid() && Grown() && (s, fired) == S.Callback(old(s), ms, script, 0)
    {
      hide Valid, S.Inv, S.Drop, S.DoAll, S.ListOk, S.Fired, S.FrontDue, S.Dues, S.Settled, S.SortedBy, S.Callback;
      fired := [];
      ghost var result := S.Callback(s, ms, script, 0);
      assert [] + result.1 == result.1;
      var k := 0;
      while true
        invariant Valid() && Grown() && ms in lists && ms in s.lists && forall k: nat :: OpsOk(script(k))
        invariant S.Inv(s, {ms})
        invariant var rest := S.Callback(s, ms, script, k); result == (rest.0, fired + rest.1)
        decreases S.DueCount(s, ms)
      {
        ghost var s0 := s;
        S.ListInOrder(s, ms);
        var first := FireOne(ms, script(k));
        if first == null {
          S.CallbackStops(s0, ms, script, k);
          assert fired + [] == fired;
          return;
        }
        S.FiredKeeps(s0, ms, script(k));
        S.CallbackGoesOn(s0, ms, script, k);
        assert fired + ([first] + S.Callback(s, ms, script, k + 1).1)
            == fired + [first] + S.Callback(s, ms, script, k + 1).1;
        fired := fired + [first];
        KeysKnown();
        k := k + 1;
      }
    }

    /** Time passes. */
    method Advance(elapsed: nat)
      requires Valid()
      modifies this`now, this`s
      ensures Valid() && s == old(s).(now := old(s).now + elapsed) && now == old(now) + elapsed
    {
      hide L.Valid, L.Tidy, L.Closed, L.LinksOf, FieldsOf;
      now := now + elapsed;
      s := s.(now := now);
    }

    /** `clearTimeout`: a timer whose function was not cleared yet is taken out. */
    method ClearTimeout(timer: Item, hasCallback: bool)
      requires Valid() && IsItem(timer)
      modifies this`rings, this`s, all
      ensures Valid() && s == if hasCallback then S.Unenroll(old(s), timer) else old(s)
    {
      hide Valid, S.Unenroll;
      if hasCallback { Unenroll(timer); }
    }

    /** What happens concerns the program's own items. */
    ghost predicate EventOk(e: S.Event)
      reads this
    {
      match e
      case Advance(_) => true
      case Call(op) => IsItem(op.item)
      case WatcherFires(_, script, _) => forall k: nat :: OpsOk(script(k))
    }

    /** Whether the callback would fire somebody now. */
    method IsDue(ms: int) returns (due: bool)
      requires Valid() && ms in lists && S.Inv(s, {ms})
      ensures ms in s.lists && S.ListOk(s, ms) && (due <==> S.FrontDue(s, ms))
    {
      hide L.Valid, L.Tidy, L.Closed, L.LinksOf, Matches, Agrees, FieldsOf, S.Inv, S.ListOk, Heads;
      KeysKnown();
      S.ListInOrder(s, ms);
      var first := PeekList(ms);
      due := first != null && now - first.idleStart + 1 >= ms;
    }

    /** `list.callback` for any timeout, given so many rounds to end in. */
    method CallbackIn(ms: int, script: S.Script, rounds: nat) returns (fired: seq<Item>, ended: bool)
      requires Valid() && ms in lists && S.Inv(s, {ms}) && ms in s.lists && forall k: nat :: OpsOk(script(k))
      modifies this`lists, this`all, this`rings, this`s, all
      ensures Valid() && Grown() && (ended <==> S.EndsIn(old(s), ms, script, 0, rounds))
      ensures ended ==> (s, fired) == S.CallbackIn(old(s), ms, script, 0, rounds)
    {
      hide Valid, S.Inv, S.ListOk, S.Fired, S.FrontDue, S.Settled, S.SortedBy, S.EndsIn, S.CallbackIn;
      fired := [];
      ghost var s0 := s;
      S.RunsStart(s, ms, script, rounds);
      var k := 0;
      while true
        invariant Valid() && Grown() && ms in lists && ms in s.lists && forall k: nat :: OpsOk(script(k))
        invariant k <= rounds && S.Inv(s, {ms}) && S.Runs(s0, s, ms, script, rounds, k, fired)
        decreases rounds - k
      {
        ghost var before := s;
        var due := IsDue(ms);
        if due && k == rounds {
          S.RunsOut(s0, s, ms, script, rounds, fired);
          return fired, false;
        }
        var first := FireOne(ms, script(k));
        if first == null {
          S.RunsEnd(s0, before, ms, script, rounds, k, fired);
          return fired, true;
        }
        S.RunsOn(s0, before, ms, script, rounds, k, fired);
        fired := fired + [first];
        KeysKnown();
        k := k + 1;
      }
    }

    /** One event: the machine's step, unless it is a callback that does not end in its rounds. */
    method Step(e: S.Event) returns (ended: bool, fired: seq<Item>)
      requires Valid() && S.Inv(s, {}) && EventOk(e)
      modifies this, all
      ensures Valid() && Grown() && (ended <==> S.Possible(old(s), e))
      ensures ended ==> S.Inv(s, {}) && s == S.Step(old(s), e) && fired == S.FiredBy(old(s), e)
    {
      hide Valid, S.Inv, S.Do, S.Callback, S.EndsIn, S.CallbackIn;
      KeysKnown();
      if S.Possible(s, e) { S.StepKeeps(s, e); }
      ended, fired := true, [];
      match e
      case Advance(elapsed) => Advance(elapsed);
      case Call(op) => Do(op, S.Nobody, {});
      case WatcherFires(ms, script, rounds) =>
        if ms in lists {
          S.Relax(s, ms);
          if ms >= 2 {
            fired := ListCallback(ms, script);
          } else {
            fired, ended := CallbackIn(ms, script, rounds);
          }
        }
    }

    /**
     * Any run of events is a run of the machine, so what holds of all its runs holds of the rings; it is cut
     * short after `n` events only by a callback that does not end in its rounds.
     */
    method Run(events: seq<S.Event>) returns (n: nat, log: seq<seq<Item>>, ghost reached: S.State)
      requires Valid() && S.Inv(s, {}) && forall n :: 0 <= n < |events| ==> EventOk(events[n])
      modifies this, all
      ensures Valid() && Grown() && n <= |events| && S.Inv(reached, {}) && old(s).now <= reached.now
      ensures S.Reaches(old(s), events[..n], reached, log)
      ensures if n == |events| then s == reached else !S.Possible(reached, events[n])
    {
      hide Valid, S.Inv, S.Step, S.Possible, S.FiredBy;
      n, log, reached := 0, [], s;
      while n < |events|
        invariant n <= |events| && Valid() && Grown() && S.Inv(s, {}) && s == reached
        invariant S.Reaches(old(s), events[..n], s, log)
        invariant forall k :: n <= k < |events| ==> EventOk(events[k])
      {
        label before:
        var ended, fired := Step(events[n]);
        if !ended {
          S.RunKeeps(old(s), events[..n], reached, log);
          return;
        }
        forall k | n < k < |events|
          ensures EventOk(events[k])
        {
          assert old@before(EventOk(events[k]));
        }
        S.ReachesOne(old(s), events[..n], reached, log, events[n]);
        assert events[..n] + [events[n]] == events[..n + 1];
        n, log, reached := n + 1, log + [fired], s;
      }
      S.RunKeeps(old(s), events[..n], s, log);
    }

    /** `setTimeout` for a positive delay: a new item, alone in its ring, made active. */
    method SetTimeout(after: int) returns (timer: Item)
      requires Valid() && after > 0
      modifies this`lists, this`all, this`rings, this`s
      modifies all
      ensures Valid() && Grown() && fresh(timer) && IsItem(timer) && !S.Placed(old(s), timer)
      ensures var e := S.Enroll(old(s), timer, after);
              timer in e.idle && S.MayActivate(e, timer, S.Nobody) && s == S.Active(e, timer, S.Nobody)
      ensures after in s.lists && s.lists[after].items == Laws.ItemsOf(old(s), after) + [timer]
      ensures timer in s.start && s.start[timer] == now == old(now)
    {
      hide L.Valid, L.Tidy, L.Closed, L.LinksOf, Matches, Agrees, FieldsOf, S.Active, Heads;
      hide S.Enroll, S.MayActivate, S.Placed;
      timer := NewItem();
      Laws.EnrollPuts(s, timer, after);
      Laws.SetTimeoutPuts(s, timer, after);
      Enroll(timer, after);
      Active(timer, S.Nobody);
    }

    /** A timer of any delay beside any other calls and timers: it fires once, when it is due and no earlier. */
    method SetTimeoutAndRun(after: int, events: seq<S.Event>) returns (timer: Item, n: nat, log: seq<seq<Item>>)
      requires Valid() && S.Inv(s, {}) && after > 0 && forall n :: 0 <= n < |events| ==> EventOk(events[n])
      modifies this, all
      ensures Valid() && |log| == n <= |events|
      ensures forall k :: 0 <= k < n ==> (timer in log[k] <==> k == Laws.ExpiresAt(events[..n], after, 0))
    {
      hide Valid, S.Inv, S.Active, S.Enroll, S.MayActivate, S.Placed, S.Reaches;
      ghost var s0 := s;
      label before:
      timer := SetTimeout(after);
      forall k | 0 <= k < |events|
        ensures EventOk(events[k]) && Laws.Ignores(events[k], timer)
      {
        assert old@before(EventOk(events[k]));
      }
      Laws.SetTimeoutKeeps(s0, timer, after);
      ghost var reached;
      ghost var begin := s;
      n, log, reached := Run(events);
      S.RunKeeps(begin, events[..n], reached, log);
      Laws.SetTimeoutFires(s0, timer, after, events[..n], reached, log);
    }
  }

  /** An item that is placed but not idle is in the list of its timeout. */
  lemma InItsList(s: S.State, busy: set<int>, x: Item)
    requires S.Inv(s, busy)
    ensures S.Placed(s, x) && x !in s.idle ==>
              x in s.timeout && s.timeout[x] in s.lists && x in s.lists[s.timeout[x]].items
    ensures forall m :: m in s.lists && x in s.lists[m].items ==> x in s.timeout && s.timeout[x] == m
  {
    forall m | m in s.lists && x in s.lists[m].items ensures x in s.timeout && s.timeout[x] == m {
      S.MemberOk(s, busy, m, x);
    }
  }

  lemma NewListAgrees(heads: map<int, Item>, all: set<Item>, f: Fields, s: S.State, ms: int, list: Item)
    requires Agrees(heads, all, f, s) && ms !in heads && list in all && list !in Heads(heads)
    requires heads.Keys == s.lists.Keys
    requires list !in s.timeout && list !in s.idle && list !in s.start && f.deadline[list] == None
    ensures Agrees(heads[ms := list], all, f, S.EnsureList(s, ms))
  {
    HeadsMore(heads, ms, list);
  }

  lemma PushAgrees(heads: map<int, Item>, all: set<Item>, f: Fields, s: S.State, ms: int, item: Item)
    requires Agrees(heads, all, f, s) && ms in s.lists
    ensures Agrees(heads, all, f, S.Push(s, ms, item))
  {
  }

  lemma StampMatches(heads: map<int, Item>, rings: L.Rings, s: S.State, item: Item)
    requires Matches(heads, rings, s)
    ensures Matches(heads, rings, s.(start := s.start[item := s.now]))
  {
  }

  lemma StampAgrees(heads: map<int, Item>, all: set<Item>, f: Fields, s: S.State, item: Item)
    requires Agrees(heads, all, f, s) && item in all - Heads(heads)
    ensures Agrees(heads, all, f.(start := f.start[item := s.now]), s.(start := s.start[item := s.now]))
  {
  }

  lemma MoreLinks(all: set<Item>, x: Item, rings: L.Rings)
    requires L.Valid(L.LinksOf(all), rings) && L.Tidy(L.LinksOf(all), rings) && x.idleNext == null && x.idlePrev == null
    ensures L.Valid(L.LinksOf(all + {x}), rings) && L.Tidy(L.LinksOf(all + {x}), rings)
  {
    hide L.Valid, L.Tidy;
    L.MoreObjects(L.LinksOf(all), L.LinksOf(all + {x}), rings);
  }

  lemma MoreFields(all: set<Item>, x: Item)
    ensures var f, g := FieldsOf(all), FieldsOf(all + {x});
            && g.timeout == f.timeout[x := x.idleTimeout] && g.start == f.start[x := x.idleStart]
            && g.deadline == f.deadline[x := x.deadline]
  {
  }

  lemma AllKeys(all: set<Item>)
    ensures FieldsOf(all).start.Keys == FieldsOf(all).deadline.Keys == all
  {
  }

  lemma AgreesMore(heads: map<int, Item>, all: set<Item>, f: Fields, g: Fields, s: S.State, x: Item)
    requires Agrees(heads, all, f, s) && x !in all
    requires g.timeout == f.timeout[x := None] && g.start.Keys == all + {x} && g.deadline.Keys == all + {x}
    requires forall y :: y in all ==> g.start[y] == f.start[y] && g.deadline[y] == f.deadline[y]
    ensures Agrees(heads, all + {x}, g, s) && x !in Heads(heads)
  {
    assert all + {x} - Heads(heads) == (all - Heads(heads)) + {x};
    assert forall m :: m in heads ==> heads[m] in Heads(heads);
  }

  lemma UnenrollTakesOut(s: S.State, item: Item)
    ensures !S.Placed(S.Unenroll(s, item), item)
  {
    var d := S.Drop(s, item);
    forall m | m in d.lists ensures item !in d.lists[m].items {
      L.WithoutElements(s.lists[m].items, item);
      assert item !in L.Elements(L.Without(s.lists[m].items, item));
    }
  }

  lemma EnrollAgrees(heads: map<int, Item>, all: set<Item>, f: Fields, s: S.State, item: Item, ms: int)
    requires Agrees(heads, all, f, s) && item in all - Heads(heads)
    ensures Agrees(heads, all, f.(timeout := f.timeout[item := Some(ms)]), s.(timeout := s.timeout[item := ms],
              idle := s.idle + {item}))
  {
  }

  lemma DropAgrees(heads: map<int, Item>, all: set<Item>, f: Fields, s: S.State, item: Item)
    requires Agrees(heads, all, f, s)
    ensures Agrees(heads, all, f, S.Drop(s, item))
  {
  }
}
