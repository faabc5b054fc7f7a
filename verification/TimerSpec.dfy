/**
 * lib/timers.js as a machine over values: lists of items by timeout, each with one watcher. The scheduling
 * theorems are about this machine; Timers.dfy shows that the code on linked rings behaves like it.
 */
module TimerSpec {
  import opened Common
  import opened LinkList

  /** One list: its items, the most idle first, and when its watcher goes off, if it is armed. */
  datatype TList = TList(items: seq<Item>, deadline: Option<int>)

  /** `idle` holds the items that are enrolled but in no list: alone in a ring of their own. */
  datatype State = State(lists: map<int, TList>, start: map<Item, int>, timeout: map<Item, int>, idle: set<Item>,
      now: int)

  // ------------------------------------------------------------------ operations

  /** The item leaves whichever ring it is in. */
  ghost function Drop(s: State, item: Item): State {
    s.(lists := map ms | ms in s.lists :: s.lists[ms].(items := Without(s.lists[ms].items, item)),
        idle := s.idle - {item})
  }

  ghost predicate Placed(s: State, item: Item) {
    item in s.idle || exists ms :: ms in s.lists && item in s.lists[ms].items
  }

  ghost function SetWatcher(s: State, ms: int, deadline: Option<int>): State
    requires ms in s.lists
  {
    s.(lists := s.lists[ms := s.lists[ms].(deadline := deadline)])
  }

  /** The item goes to the end of a list, out of whichever ring held it. */
  ghost function Push(s: State, ms: int, item: Item): State
    requires ms in s.lists
  {
    var d := Drop(s, item);
    d.(lists := d.lists[ms := d.lists[ms].(items := d.lists[ms].items + [item])])
  }

  /** `unenroll`. */
  ghost function Unenroll(s: State, item: Item): State {
    var d := Drop(s, item);
    if item in s.timeout && s.timeout[item] in d.lists && d.lists[s.timeout[item]].items == []
    then SetWatcher(d, s.timeout[item], None) else d
  }

  /** `enroll`. */
  ghost function Enroll(s: State, item: Item, ms: int): State {
    var e := if Placed(s, item) then Unenroll(s, item) else s;
    e.(timeout := e.timeout[item := ms], idle := e.idle + {item})
  }

  ghost function EnsureList(s: State, ms: int): State {
    if ms in s.lists then s else s.(lists := s.lists[ms := TList([], None)])
  }

  /** `insert`, for a timeout that is not negative. */
  ghost function Insert(s: State, item: Item, ms: int): State {
    var s1 := EnsureList(s.(start := s.start[item := s.now], timeout := s.timeout[item := ms]), ms);
    var s2 := if s1.lists[ms].items == [] then SetWatcher(s1, ms, Some(s1.now + ms)) else s1;
    Push(s2, ms, item)
  }

  /** An item whose timeout function is running, and the list it was taken from. */
  datatype Firing = Nobody | Firing(item: Item, ms: int)

  /** The items `active` may be called on: enrolled ones, and an item from inside its own timeout. */
  ghost predicate MayActivate(s: State, item: Item, self: Firing) {
    item in s.timeout &&
    (item in s.idle || s.timeout[item] < 0
     || (s.timeout[item] in s.lists
         && (item in s.lists[s.timeout[item]].items || self == Firing(item, s.timeout[item]))))
  }

  /** `active`. */
  ghost function Active(s: State, item: Item, self: Firing): State
    requires MayActivate(s, item, self)
  {
    var ms := s.timeout[item];
    if ms < 0 then s
    else if item in s.idle then Insert(s, item, ms)
    else Push(s.(start := s.start[item := s.now]), ms, item)
  }

  // ------------------------------------------------------------------ invariant

  ghost predicate SortedBy(start: map<Item, int>, items: seq<Item>) {
    (forall i :: 0 <= i < |items| ==> items[i] in start)
    && forall i, j :: 0 <= i < j < |items| ==> start[items[i]] <= start[items[j]]
  }

  ghost predicate ItemOk(s: State, ms: int, item: Item) {
    && item in s.timeout && s.timeout[item] == ms
    && item in s.start && s.start[item] <= s.now
    && item !in s.idle
  }

  /** The watcher is armed exactly when the list holds items, and no later than the oldest is due. */
  ghost predicate WatchOk(s: State, ms: int)
    requires ms in s.lists && SortedBy(s.start, s.lists[ms].items)
  {
    var l := s.lists[ms];
    if l.items == [] then l.deadline == None
    else l.deadline.Some? && l.deadline.value <= s.start[l.items[0]] + ms
  }

  ghost predicate ListOk(s: State, ms: int)
    requires ms in s.lists
  {
    var items := s.lists[ms].items;
    && ms >= 0 && Distinct(items) && SortedBy(s.start, items)
    && forall i :: 0 <= i < |items| ==> ItemOk(s, ms, items[i])
  }

  /** `busy` are the lists whose watcher is being dealt with by their own callback. */
  ghost predicate Inv(s: State, busy: set<int>) {
    && (forall ms :: ms in s.lists ==> ListOk(s, ms))
    && (forall ms :: ms in s.lists && ms !in busy ==> WatchOk(s, ms))
    && (forall x :: x in s.idle ==> x in s.timeout)
  }

  // ------------------------------------------------------------------ dropping and pushing

  lemma WithoutKeeps(start: map<Item, int>, items: seq<Item>, x: Item)
    requires Distinct(items) && SortedBy(start, items)
    ensures var r := Without(items, x);
            && Distinct(r) && SortedBy(start, r) && x !in r
            && (forall i :: 0 <= i < |r| ==> r[i] in items)
            && (r != [] ==> items != [] && start[items[0]] <= start[r[0]])
  {
    if x in items {
      var k := IndexOf(items, x);
      WithoutAt(items, k);
      var r := Without(items, x);
      forall i | 0 <= i < |r| ensures r[i] == items[if i < k then i else i + 1] && r[i] != x {
      }
    } else {
      WithoutAbsent(items, x);
    }
  }

  lemma DropKeeps(s: State, item: Item, busy: set<int>)
    requires Inv(s, busy)
    ensures var d := Drop(s, item);
            && Inv(d, busy + if item in s.timeout then {s.timeout[item]} else {})
            && !Placed(d, item)
            && (forall ms :: ms in s.lists && d.lists[ms].items != [] && ms !in busy ==> WatchOk(d, ms))
  {
    var d := Drop(s, item);
    forall ms | ms in s.lists
      ensures ListOk(d, ms) && item !in d.lists[ms].items
      ensures ms !in busy && d.lists[ms].items != [] ==> WatchOk(d, ms)
      ensures ms !in busy && !(item in s.timeout && s.timeout[item] == ms) ==> WatchOk(d, ms)
    {
      assert ListOk(s, ms);
      var items := s.lists[ms].items;
      WithoutKeeps(s.start, items, item);
      var r := Without(items, item);
      assert d.lists[ms].items == r;
      forall i | 0 <= i < |r| ensures ItemOk(d, ms, r[i]) {
        var j := IndexOf(items, r[i]);
        assert ItemOk(s, ms, items[j]);
      }
      if item in items {
        var j := IndexOf(items, item);
        assert ItemOk(s, ms, items[j]);
      } else {
        WithoutAbsent(items, item);
      }
    }
  }

  lemma UnenrollKeeps(s: State, item: Item, busy: set<int>)
    requires Inv(s, busy)
    ensures Inv(Unenroll(s, item), busy) && !Placed(Unenroll(s, item), item)
  {
    hide ListOk;
    DropKeeps(s, item, busy);
    var d := Drop(s, item);
    if item in s.timeout && s.timeout[item] in d.lists && d.lists[s.timeout[item]].items == [] {
      WatcherKeeps(d, s.timeout[item], None, busy + {s.timeout[item]});
    }
  }

  /** Only the watcher of one list changes; a list that is not busy must be left with a good one. */
  lemma WatcherKeeps(s: State, ms: int, deadline: Option<int>, busy: set<int>)
    requires Inv(s, busy) && ms in s.lists
    ensures var t := SetWatcher(s, ms, deadline);
            Inv(t, busy + {ms}) && (WatchOk(t, ms) ==> Inv(t, busy - {ms}))
  {
    var t := SetWatcher(s, ms, deadline);
    forall m | m in t.lists ensures ListOk(t, m) {
      assert ListOk(s, m);
      forall i | 0 <= i < |t.lists[m].items| ensures ItemOk(t, m, t.lists[m].items[i]) {
        assert ItemOk(s, m, s.lists[m].items[i]);
      }
    }
    forall m | m in t.lists && m != ms && m !in busy ensures WatchOk(t, m) {
      assert WatchOk(s, m);
    }
  }

  lemma EnrollKeeps(s: State, item: Item, ms: int, busy: set<int>)
    requires Inv(s, busy)
    ensures Inv(Enroll(s, item, ms), busy)
  {
    if Placed(s, item) {
      UnenrollKeeps(s, item, busy);
    }
    var e := if Placed(s, item) then Unenroll(s, item) else s;
    var t := Enroll(s, item, ms);
    forall m | m in t.lists ensures ListOk(t, m) && (m !in busy ==> WatchOk(t, m)) {
      assert ListOk(e, m) && (m !in busy ==> WatchOk(e, m));
      forall i | 0 <= i < |t.lists[m].items| ensures ItemOk(t, m, t.lists[m].items[i]) {
        assert ItemOk(e, m, e.lists[m].items[i]);
        assert e.lists[m].items[i] in e.lists[m].items;
      }
    }
  }

  /** Pushing with a fresh start keeps the order; the watcher must be armed in time already. */
  lemma PushKeeps(s: State, item: Item, ms: int, busy: set<int>)
    requires Inv(s, busy) && ms in s.lists && ms >= 0 && item in s.timeout && s.timeout[item] == ms
    requires ms in busy || (s.lists[ms].deadline.Some? && s.lists[ms].deadline.value <= s.now + ms)
    ensures Inv(Push(s.(start := s.start[item := s.now]), ms, item), busy)
  {
    DropKeeps(s, item, busy);
    var d := Drop(s, item);
    var t := Push(s.(start := s.start[item := s.now]), ms, item);
    var r := d.lists[ms].items;
    assert t.lists[ms].items == r + [item];
    forall m | m in t.lists ensures ListOk(t, m) && (m !in busy ==> WatchOk(t, m)) {
      assert ListOk(d, m) && item !in d.lists[m].items;
      var items := d.lists[m].items;
      forall i | 0 <= i < |items| ensures ItemOk(t, m, items[i]) && t.start[items[i]] == d.start[items[i]] {
        assert ItemOk(d, m, items[i]) && items[i] in items;
      }
      if m == ms {
        assert ItemOk(t, ms, item);
      } else {
        assert t.lists[m] == d.lists[m];
        assert m !in busy ==> WatchOk(d, m);
      }
    }
  }

  lemma InsertKeeps(s: State, item: Item, ms: int, busy: set<int>)
    requires Inv(s, busy) && ms >= 0 && item in s.idle
    ensures Inv(Insert(s, item, ms), busy)
  {
    hide ListOk, WatchOk, Push;
    var s0 := s.(timeout := s.timeout[item := ms]);
    TimeoutKeeps(s, item, ms, busy);
    var s1 := EnsureList(s0, ms);
    EnsureListKeeps(s0, ms, busy);
    var s2 := if s1.lists[ms].items == [] then SetWatcher(s1, ms, Some(s1.now + ms)) else s1;
    if s1.lists[ms].items == [] {
      WatcherKeeps(s1, ms, Some(s1.now + ms), busy);
    } else {
      ArmedInTime(s1, ms, busy);
    }
    OthersWatched(s1, s2, ms, busy);
    InsertPush(s2, item, ms, busy);
    assert Insert(s, item, ms) == Push(s2.(start := s2.start[item := s2.now]), ms, item);
  }

  lemma TimeoutKeeps(s: State, item: Item, ms: int, busy: set<int>)
    requires Inv(s, busy) && item in s.idle
    ensures Inv(s.(timeout := s.timeout[item := ms]), busy)
  {
    var t := s.(timeout := s.timeout[item := ms]);
    forall m | m in t.lists ensures ListOk(t, m) && (m !in busy ==> WatchOk(t, m)) {
      assert ListOk(s, m) && (m !in busy ==> WatchOk(s, m));
      forall i | 0 <= i < |t.lists[m].items| ensures ItemOk(t, m, t.lists[m].items[i]) {
        assert ItemOk(s, m, s.lists[m].items[i]);
      }
    }
  }

  lemma ArmedInTime(s: State, ms: int, busy: set<int>)
    requires Inv(s, busy) && ms in s.lists && s.lists[ms].items != []
    ensures ms !in busy ==> WatchOk(s, ms) && s.lists[ms].deadline.Some? && s.lists[ms].deadline.value <= s.now + ms
  {
    assert ListOk(s, ms) && ItemOk(s, ms, s.lists[ms].items[0]);
  }

  lemma OthersWatched(s: State, t: State, ms: int, busy: set<int>)
    requires Inv(s, busy) && ms in s.lists && t.start == s.start
    requires t.lists.Keys == s.lists.Keys && forall m :: m in s.lists && m != ms ==> t.lists[m] == s.lists[m]
    ensures forall m :: m in t.lists && m !in busy && m != ms ==> SortedBy(t.start, t.lists[m].items) && WatchOk(t, m)
  {
    forall m | m in t.lists && m !in busy && m != ms
      ensures SortedBy(t.start, t.lists[m].items) && WatchOk(t, m)
    {
      assert ListOk(s, m) && WatchOk(s, m);
    }
  }

  lemma EnsureListKeeps(s: State, ms: int, busy: set<int>)
    requires Inv(s, busy) && ms >= 0
    ensures Inv(EnsureList(s, ms), busy)
  {
    var t := EnsureList(s, ms);
    forall m | m in t.lists ensures ListOk(t, m) && (m !in busy ==> WatchOk(t, m)) {
      if m in s.lists {
        assert ListOk(s, m) && (m !in busy ==> WatchOk(s, m));
        forall i | 0 <= i < |t.lists[m].items| ensures ItemOk(t, m, t.lists[m].items[i]) {
          assert ItemOk(s, m, s.lists[m].items[i]);
        }
      }
    }
  }

  /** In an empty list the new watcher itself may be the only thing that is out of order. */
  lemma InsertPush(s: State, item: Item, ms: int, busy: set<int>)
    requires Inv(s, busy + {ms}) && ms in s.lists && ms >= 0 && item in s.timeout && s.timeout[item] == ms
    requires forall m :: m in s.lists && m !in busy && m != ms ==> WatchOk(s, m)
    requires ms in busy || (s.lists[ms].deadline.Some? && s.lists[ms].deadline.value <= s.now + ms)
    requires ms !in busy && s.lists[ms].items != [] ==> WatchOk(s, ms)
    ensures Inv(Push(s.(start := s.start[item := s.now]), ms, item), busy)
  {
    PushKeeps(s, item, ms, busy + {ms});
    if ms !in busy {
      var t := Push(s.(start := s.start[item := s.now]), ms, item);
      DropKeeps(s, item, busy + {ms});
      var d := Drop(s, item);
      var r := d.lists[ms].items;
      assert t.lists[ms].items == r + [item];
      if r != [] {
        WithoutKeeps(s.start, s.lists[ms].items, item);
        assert r[0] in r;
      }
      assert WatchOk(t, ms);
    }
  }

  lemma ActiveKeeps(s: State, item: Item, self: Firing, busy: set<int>)
    requires Inv(s, busy) && MayActivate(s, item, self) && (self.Firing? ==> self.ms in busy)
    ensures Inv(Active(s, item, self), busy)
  {
    var ms := s.timeout[item];
    if ms >= 0 {
      if item in s.idle {
        InsertKeeps(s, item, ms, busy);
      } else {
        assert ListOk(s, ms);
        if ms !in busy {
          assert WatchOk(s, ms);
          assert ItemOk(s, ms, s.lists[ms].items[0]);
        }
        PushKeeps(s, item, ms, busy);
      }
    }
  }

  // ------------------------------------------------------------------ what a timeout function may do

  datatype Op = OpActive(item: Item) | OpUnenroll(item: Item) | OpEnroll(item: Item, ms: int)

  /** One call into the module; `active` outside the discipline of `MayActivate` is not modelled and does nothing. */
  ghost function Do(s: State, op: Op, self: Firing): State {
    match op
    case OpActive(item) => if MayActivate(s, item, self) then Active(s, item, self) else s
    case OpUnenroll(item) => Unenroll(s, item)
    case OpEnroll(item, ms) => Enroll(s, item, ms)
  }

  ghost function DoAll(s: State, ops: seq<Op>, self: Firing): State
    decreases |ops|
  {
    if ops == [] then s else DoAll(Do(s, ops[0], self), ops[1..], self)
  }

  lemma DoKeeps(s: State, op: Op, self: Firing, busy: set<int>)
    requires Inv(s, busy) && (self.Firing? ==> self.ms in busy)
    ensures var t := Do(s, op, self); Inv(t, busy) && s.lists.Keys <= t.lists.Keys && t.now == s.now
  {
    match op {
      case OpActive(item) => if MayActivate(s, item, self) { ActiveKeeps(s, item, self, busy); }
      case OpUnenroll(item) => UnenrollKeeps(s, item, busy);
      case OpEnroll(item, ms) => EnrollKeeps(s, item, ms, busy);
    }
  }

  lemma {:induction false} DoAllKeeps(s: State, ops: seq<Op>, self: Firing, busy: set<int>)
    requires Inv(s, busy) && (self.Firing? ==> self.ms in busy)
    ensures var t := DoAll(s, ops, self); Inv(t, busy) && s.lists.Keys <= t.lists.Keys && t.now == s.now
    decreases |ops|
  {
    hide Inv, Do;
    if ops == [] {
    } else {
      DoKeeps(s, ops[0], self, busy);
      DoAllKeeps(Do(s, ops[0], self), ops[1..], self, busy);
    }
  }

  // ------------------------------------------------------------------ due items

  /** The test of the callback: `diff + 1 < msecs` means not yet. */
  predicate IsDue(start: int, now: int, ms: int) {
    now - start + 1 >= ms
  }

  /** The items of a list that are due, the most idle first. */
  ghost function DueOf(items: seq<Item>, start: map<Item, int>, now: int, ms: int): seq<Item>
    requires forall i :: 0 <= i < |items| ==> items[i] in start
  {
    if items == [] then []
    else (if IsDue(start[items[0]], now, ms) then [items[0]] else []) + DueOf(items[1..], start, now, ms)
  }

  ghost function Dues(s: State, ms: int): seq<Item>
    requires ms in s.lists && SortedBy(s.start, s.lists[ms].items)
  {
    DueOf(s.lists[ms].items, s.start, s.now, ms)
  }

  ghost function DueCount(s: State, ms: int): nat {
    if ms in s.lists && SortedBy(s.start, s.lists[ms].items) then |Dues(s, ms)| else 0
  }

  /** Being due depends on the items' own starts only. */
  lemma {:induction false} DueOfSame(items: seq<Item>, start: map<Item, int>, start': map<Item, int>, now: int, ms: int)
    requires forall i :: 0 <= i < |items|
              ==> items[i] in start && items[i] in start' && start[items[i]] == start'[items[i]]
    ensures DueOf(items, start, now, ms) == DueOf(items, start', now, ms)
  {
    if items == [] {
    } else {
      DueOfSame(items[1..], start, start', now, ms);
    }
  }

  lemma {:induction false} DueOfWithout(items: seq<Item>, x: Item, start: map<Item, int>, now: int, ms: int)
    requires forall i :: 0 <= i < |items| ==> items[i] in start
    ensures forall i :: 0 <= i < |Without(items, x)| ==> Without(items, x)[i] in start
    ensures DueOf(Without(items, x), start, now, ms) == Without(DueOf(items, start, now, ms), x)
  {
    if items == [] {
    } else {
      var rest := items[1..];
      DueOfWithout(rest, x, start, now, ms);
      var due := DueOf(rest, start, now, ms);
      var r := Without(items, x);
      if items[0] != x {
        assert r == [items[0]] + Without(rest, x) && r[1..] == Without(rest, x);
      } else {
        assert r == Without(rest, x);
      }
      if IsDue(start[items[0]], now, ms) {
        var all := [items[0]] + due;
        assert all[1..] == due && DueOf(items, start, now, ms) == all;
      } else {
        assert DueOf(items, start, now, ms) == due;
      }
    }
  }

  lemma {:induction false} DueOfLast(items: seq<Item>, x: Item, start: map<Item, int>, now: int, ms: int)
    requires (forall i :: 0 <= i < |items| ==> items[i] in start) && x in start && !IsDue(start[x], now, ms)
    ensures DueOf(items + [x], start, now, ms) == DueOf(items, start, now, ms)
  {
    if items == [] {
      assert items + [x] == [x];
    } else {
      assert (items + [x])[1..] == items[1..] + [x];
      DueOfLast(items[1..], x, start, now, ms);
    }
  }

  /** In a list ordered by start, if the oldest item is not due then none is. */
  lemma {:induction false} NoneDue(items: seq<Item>, start: map<Item, int>, now: int, ms: int)
    requires SortedBy(start, items) && (items != [] ==> !IsDue(start[items[0]], now, ms))
    ensures DueOf(items, start, now, ms) == []
  {
    if |items| > 1 {
      assert start[items[0]] <= start[items[1]];
      NoneDue(items[1..], start, now, ms);
    }
  }

  /** What a call does to the due items of a list: the item it is about is no longer due there. */
  lemma DoDues(s: State, op: Op, self: Firing, busy: set<int>, ms: int)
    requires Inv(s, busy) && (self.Firing? ==> self.ms in busy) && ms in s.lists && ms >= 2
    ensures var t := Do(s, op, self); Inv(t, busy) && ms in t.lists && ListOk(s, ms) && ListOk(t, ms)
    ensures Dues(Do(s, op, self), ms) == Without(Dues(s, ms), op.item)
  {
    DoKeeps(s, op, self, busy);
    assert ListOk(s, ms) && ListOk(Do(s, op, self), ms);
    var x := op.item;
    var items := s.lists[ms].items;
    DueOfWithout(items, x, s.start, s.now, ms);
    assert Drop(s, x).lists[ms].items == Without(items, x);
    MemberOk(s, busy, ms, x);
    if x !in items {
      WithoutAbsent(items, x);
    }
    if op.OpActive? && MayActivate(s, x, self) {
      ActiveDues(s, x, self, busy, ms);
    }
  }

  lemma MemberOk(s: State, busy: set<int>, ms: int, x: Item)
    requires Inv(s, busy) && ms in s.lists
    ensures x in s.lists[ms].items ==> ItemOk(s, ms, x)
  {
    assert ListOk(s, ms);
    if x in s.lists[ms].items {
      assert ItemOk(s, ms, s.lists[ms].items[IndexOf(s.lists[ms].items, x)]);
    }
  }

  lemma ActiveDues(s: State, x: Item, self: Firing, busy: set<int>, ms: int)
    requires Inv(s, busy) && (self.Firing? ==> self.ms in busy) && ms in s.lists && ms >= 2 && MayActivate(s, x, self)
    ensures ListOk(s, ms) && ms in Active(s, x, self).lists && ListOk(Active(s, x, self), ms)
    ensures Dues(Active(s, x, self), ms) == Without(Dues(s, ms), x)
  {
    ActiveKeeps(s, x, self, busy);
    assert ListOk(s, ms) && ListOk(Active(s, x, self), ms);
    MemberOk(s, busy, ms, x);
    hide Inv, Active, MayActivate;
    var t := Active(s, x, self);
    var items := s.lists[ms].items;
    var r := Without(items, x);
    ActiveItems(s, x, self, ms);
    DueOfWithout(items, x, s.start, s.now, ms);
    WithoutKeeps(s.start, items, x);
    if s.timeout[x] < 0 {
      WithoutAbsent(items, x);
    } else {
      assert forall i :: 0 <= i < |r| ==> r[i] in r;
      DueOfSame(r, s.start, t.start, s.now, ms);
      DueOfLast(r, x, t.start, s.now, ms);
    }
  }

  lemma ActiveItems(s: State, x: Item, self: Firing, ms: int)
    requires MayActivate(s, x, self) && ms in s.lists
    ensures var t := Active(s, x, self);
            && ms in t.lists && t.now == s.now
            && if s.timeout[x] < 0 then t == s
               else
                 && t.start == s.start[x := s.now]
                 && t.lists[ms].items == Without(s.lists[ms].items, x) + if s.timeout[x] == ms then [x] else []
  {
    var r := Without(s.lists[ms].items, x);
    assert r + [] == r;
  }

  // ------------------------------------------------------------------ the callback of a list

  ghost function WithoutAll(d: seq<Item>, ops: seq<Op>): seq<Item>
    decreases |ops|
  {
    if ops == [] then d else WithoutAll(Without(d, ops[0].item), ops[1..])
  }

  lemma {:induction false} DoAllDues(s: State, ops: seq<Op>, self: Firing, busy: set<int>, ms: int)
    requires Inv(s, busy) && (self.Firing? ==> self.ms in busy) && ms in s.lists && ms >= 2
    ensures var t := DoAll(s, ops, self);
            Inv(t, busy) && ms in t.lists && t.now == s.now && ListOk(s, ms) && ListOk(t, ms)
    ensures Dues(DoAll(s, ops, self), ms) == WithoutAll(Dues(s, ms), ops)
    decreases |ops|
  {
    hide Do, Dues;
    assert ListOk(s, ms);
    if ops == [] {
    } else {
      DoKeeps(s, ops[0], self, busy);
      DoDues(s, ops[0], self, busy, ms);
      DoAllDues(Do(s, ops[0], self), ops[1..], self, busy, ms);
    }
  }

  lemma {:induction false} WithoutShrinks(d: seq<Item>, x: Item)
    ensures |Without(d, x)| <= |d|
  {
    if d == [] {
    } else {
      WithoutShrinks(d[1..], x);
    }
  }

  lemma {:induction false} WithoutAllShrinks(d: seq<Item>, ops: seq<Op>)
    ensures |WithoutAll(d, ops)| <= |d|
    decreases |ops|
  {
    if ops == [] {
    } else {
      WithoutShrinks(d, ops[0].item);
      WithoutAllShrinks(Without(d, ops[0].item), ops[1..]);
    }
  }

  type Script = nat -> seq<Op>

  /** What the list's callback looks at next: nothing, an item that must wait, or an item that is due. */
  ghost predicate FrontDue(s: State, ms: int)
    requires ms in s.lists && SortedBy(s.start, s.lists[ms].items)
  {
    s.lists[ms].items != [] && IsDue(s.start[s.lists[ms].items[0]], s.now, ms)
  }

  /** The state after the most idle item is taken out and its timeout function has run. */
  ghost function Fired(s: State, ms: int, ops: seq<Op>): State
    requires ms in s.lists && s.lists[ms].items != []
  {
    var first := s.lists[ms].items[0];
    DoAll(Drop(s, first), ops, Firing(first, ms))
  }

  lemma ListInOrder(s: State, ms: int)
    requires Inv(s, {ms}) && ms in s.lists
    ensures ListOk(s, ms) && SortedBy(s.start, s.lists[ms].items)
  {
  }

  lemma FiredKeeps(s: State, ms: int, ops: seq<Op>)
    requires Inv(s, {ms}) && ms in s.lists && ms >= 2 && ListOk(s, ms) && FrontDue(s, ms)
    ensures var t := Fired(s, ms, ops); Inv(t, {ms}) && ms in t.lists && t.now == s.now && ListOk(t, ms)
    ensures Dues(s, ms) != [] && Dues(s, ms)[0] == s.lists[ms].items[0]
    ensures Dues(Fired(s, ms, ops), ms) == WithoutAll(Dues(s, ms)[1..], ops)
    ensures |Dues(Fired(s, ms, ops), ms)| < |Dues(s, ms)|
  {
    hide DoAll;
    var items := s.lists[ms].items;
    var first := items[0];
    MemberOk(s, {ms}, ms, first);
    DropKeeps(s, first, {ms});
    var d := Drop(s, first);
    assert Inv(d, {ms}) by { assert {ms} + {ms} == {ms}; }
    DropFirst(s, ms);
    DoAllDues(d, ops, Firing(first, ms), {ms}, ms);
    WithoutAllShrinks(Dues(s, ms)[1..], ops);
  }

  lemma DropFirst(s: State, ms: int)
    requires ms in s.lists && ListOk(s, ms) && FrontDue(s, ms)
    requires SortedBy(s.start, Drop(s, s.lists[ms].items[0]).lists[ms].items)
    ensures Dues(s, ms) == [s.lists[ms].items[0]] + Dues(Drop(s, s.lists[ms].items[0]), ms)
  {
    var items := s.lists[ms].items;
    WithoutAt(items, 0);
    assert Drop(s, items[0]).lists[ms].items == items[1..];
  }

  /** Firing the most idle item keeps the invariant, whatever its function calls and for every timeout. */
  lemma FiredInv(s: State, ms: int, ops: seq<Op>)
    requires Inv(s, {ms}) && ms in s.lists && s.lists[ms].items != []
    ensures var t := Fired(s, ms, ops); Inv(t, {ms}) && ms in t.lists && t.now == s.now
  {
    hide Inv, DoAll, Drop;
    var first := s.lists[ms].items[0];
    DropBusy(s, ms);
    DropLists(s, first);
    DoAllKeeps(Drop(s, first), ops, Firing(first, ms), {ms});
  }

  lemma DropLists(s: State, item: Item)
    ensures Drop(s, item).lists.Keys == s.lists.Keys && Drop(s, item).now == s.now
  {
  }

  lemma DoAllOne(s: State, op: Op, self: Firing)
    ensures DoAll(s, [op], self) == Do(s, op, self)
  {
    hide Do;
    var e := Do(s, op, self);
    assert [op][1..] == [] && DoAll(e, [], self) == e;
  }

  /** Everybody is always due below 2 ms. */
  lemma AlwaysDue(s: State, ms: int)
    requires Inv(s, {ms}) && ms in s.lists && ms < 2
    ensures ListOk(s, ms) && (FrontDue(s, ms) <==> s.lists[ms].items != [])
  {
    assert ListOk(s, ms);
    var items := s.lists[ms].items;
    if items != [] { assert ItemOk(s, ms, items[0]); }
  }

  /** So an item that activates itself is put last, and is fired again and again. */
  lemma FiredAgain(s: State, ms: int)
    requires Inv(s, {ms}) && ms in s.lists && 0 <= ms < 2 && s.lists[ms].items != []
    ensures ListOk(s, ms) && FrontDue(s, ms)
    ensures var first := s.lists[ms].items[0]; var t := Fired(s, ms, [OpActive(first)]);
            Inv(t, {ms}) && ms in t.lists && t.lists[ms].items == s.lists[ms].items[1..] + [first]
  {
    hide Inv, DoAll, Do;
    var first := s.lists[ms].items[0];
    AlwaysDue(s, ms);
    FiredInv(s, ms, [OpActive(first)]);
    DoAllOne(Drop(s, first), OpActive(first), Firing(first, ms));
    ActivatesItself(s, ms);
  }

  lemma ActivatesItself(s: State, ms: int)
    requires Inv(s, {ms}) && ms in s.lists && 0 <= ms && s.lists[ms].items != []
    ensures var items := s.lists[ms].items; var t := Do(Drop(s, items[0]), OpActive(items[0]), Firing(items[0], ms));
            ms in t.lists && t.lists[ms].items == items[1..] + [items[0]]
  {
    var items := s.lists[ms].items;
    MemberOk(s, {ms}, ms, items[0]);
    ListInOrder(s, ms);
    hide Inv;
    WithoutAt(items, 0);
    assert items[..0] + items[1..] == items[1..];
    WithoutAbsent(items[1..], items[0]);
  }

  /** The callback is still at it after `n` rounds, each firing an item that activates itself. */
  ghost predicate StillFiring(s: State, ms: int, n: nat)
    decreases n
  {
    n == 0 ||
    (ms in s.lists && ListOk(s, ms) && FrontDue(s, ms)
     && StillFiring(Fired(s, ms, [OpActive(s.lists[ms].items[0])]), ms, n - 1))
  }

  /** So for timeouts of 0 and 1 ms the callback need not end, whereas for longer ones it always does. */
  lemma {:induction false} NeedNotEnd(s: State, ms: int, n: nat)
    requires Inv(s, {ms}) && ms in s.lists && 0 <= ms < 2 && s.lists[ms].items != []
    ensures StillFiring(s, ms, n)
    decreases n
  {
    hide Inv, Fired, ListOk, FrontDue;
    if n == 0 {
    } else {
      FiredAgain(s, ms);
      NeedNotEnd(Fired(s, ms, [OpActive(s.lists[ms].items[0])]), ms, n - 1);
    }
  }

  /** Nothing to fire: the watcher is stopped, or armed for the oldest item. */
  ghost function Settled(s: State, ms: int): State
    requires ms in s.lists && SortedBy(s.start, s.lists[ms].items)
  {
    var items := s.lists[ms].items;
    SetWatcher(s, ms, if items == [] then None else Some(s.now + (ms - (s.now - s.start[items[0]]))))
  }

  /** `list.callback`: the state it leaves, and the items whose timeout function it called. */
  ghost function Callback(s: State, ms: int, script: Script, k: nat): (State, seq<Item>)
    requires Inv(s, {ms}) && ms in s.lists && ms >= 2
    decreases (assert ListOk(s, ms); |Dues(s, ms)|)
  {
    assert ListOk(s, ms);
    var items := s.lists[ms].items;
    if !FrontDue(s, ms) then (Settled(s, ms), [])
    else
      FiredKeeps(s, ms, script(k));
      var (t, fired) := Callback(Fired(s, ms, script(k)), ms, script, k + 1);
      (t, [items[0]] + fired)
  }

  lemma CallbackStops(s: State, ms: int, script: Script, k: nat)
    requires Inv(s, {ms}) && ms in s.lists && ms >= 2 && ListOk(s, ms) && SortedBy(s.start, s.lists[ms].items)
    requires !FrontDue(s, ms)
    ensures Callback(s, ms, script, k) == (Settled(s, ms), [])
  {
  }

  lemma CallbackGoesOn(s: State, ms: int, script: Script, k: nat)
    requires Inv(s, {ms}) && ms in s.lists && ms >= 2 && ListOk(s, ms) && SortedBy(s.start, s.lists[ms].items)
    requires FrontDue(s, ms)
    ensures s.lists[ms].items != [] && var t := Fired(s, ms, script(k));
            && Inv(t, {ms}) && ms in t.lists
            && var rest := Callback(t, ms, script, k + 1);
               Callback(s, ms, script, k) == (rest.0, [s.lists[ms].items[0]] + rest.1)
  {
    FiredKeeps(s, ms, script(k));
  }

  lemma DropBusy(s: State, ms: int)
    requires Inv(s, {ms}) && ms in s.lists && s.lists[ms].items != []
    ensures Inv(Drop(s, s.lists[ms].items[0]), {ms})
  {
    var first := s.lists[ms].items[0];
    MemberOk(s, {ms}, ms, first);
    DropKeeps(s, first, {ms});
    assert {ms} + {ms} == {ms};
  }

  /** The due items in turn, leaving out those that an earlier timeout function touched. */
  ghost function Schedule(d: seq<Item>, script: Script, k: nat): seq<Item>
    decreases |d|
  {
    if d == [] then []
    else
      WithoutAllShrinks(d[1..], script(k));
      [d[0]] + Schedule(WithoutAll(d[1..], script(k)), script, k + 1)
  }

  /**
   * The callback fires exactly the due items, oldest first, and stops although they may activate themselves
   * again; afterwards nothing in the list is due and its watcher is right.
   */
  lemma {:induction false} CallbackFires(s: State, ms: int, script: Script, k: nat)
    requires Inv(s, {ms}) && ms in s.lists && ms >= 2 && ListOk(s, ms)
    ensures var (t, fired) := Callback(s, ms, script, k);
            && fired == Schedule(Dues(s, ms), script, k)
            && Inv(t, {}) && ms in t.lists && ListOk(t, ms) && t.now == s.now && Dues(t, ms) == []
    decreases |Dues(s, ms)|
  {
    hide DoAll, Drop;
    var items := s.lists[ms].items;
    if !FrontDue(s, ms) {
      NoneDue(items, s.start, s.now, ms);
      var t := Callback(s, ms, script, k).0;
      WatcherKeeps(s, ms, t.lists[ms].deadline, {ms});
      assert {ms} - {ms} == {};
    } else {
      FiredKeeps(s, ms, script(k));
      CallbackFires(Fired(s, ms, script(k)), ms, script, k + 1);
    }
  }

  /** The callback ends within `n` rounds. */
  ghost predicate EndsIn(s: State, ms: int, script: Script, k: nat, n: nat)
    requires Inv(s, {ms}) && ms in s.lists
    decreases n
  {
    ListInOrder(s, ms);
    !FrontDue(s, ms) ||
    (n > 0 && (FiredInv(s, ms, script(k)); EndsIn(Fired(s, ms, script(k)), ms, script, k + 1, n - 1)))
  }

  /** What it leaves then, for any timeout, and whom it fired. */
  ghost function CallbackIn(s: State, ms: int, script: Script, k: nat, n: nat): (State, seq<Item>)
    requires Inv(s, {ms}) && ms in s.lists && EndsIn(s, ms, script, k, n)
    decreases n
  {
    ListInOrder(s, ms);
    if !FrontDue(s, ms) then (Settled(s, ms), [])
    else
      FiredInv(s, ms, script(k));
      var (t, fired) := CallbackIn(Fired(s, ms, script(k)), ms, script, k + 1, n - 1);
      (t, [s.lists[ms].items[0]] + fired)
  }

  /** The watcher is set right, whether or not anything is left. */
  lemma SettledKeeps(s: State, ms: int)
    requires Inv(s, {ms}) && ms in s.lists && ListOk(s, ms)
    ensures Inv(Settled(s, ms), {}) && Settled(s, ms).now == s.now
    ensures ms in Settled(s, ms).lists && Settled(s, ms).lists[ms].items == s.lists[ms].items
  {
    WatcherKeeps(s, ms, Settled(s, ms).lists[ms].deadline, {ms});
    assert {ms} - {ms} == {};
  }

  /** However many rounds it takes, the invariant holds afterwards; below 2 ms the list is then empty. */
  lemma {:induction false} CallbackInKeeps(s: State, ms: int, script: Script, k: nat, n: nat)
    requires Inv(s, {ms}) && ms in s.lists && EndsIn(s, ms, script, k, n)
    ensures var t := CallbackIn(s, ms, script, k, n).0;
            Inv(t, {}) && t.now == s.now && ms in t.lists && (ms < 2 ==> t.lists[ms].items == [])
    decreases n
  {
    hide Inv, Fired, Settled, FrontDue;
    ListInOrder(s, ms);
    if !FrontDue(s, ms) {
      SettledKeeps(s, ms);
      if ms < 2 { AlwaysDue(s, ms); }
    } else {
      SomeDue(s, ms);
      FiredInv(s, ms, script(k));
      CallbackInKeeps(Fired(s, ms, script(k)), ms, script, k + 1, n - 1);
    }
  }

  lemma SomeDue(s: State, ms: int)
    requires ms in s.lists && SortedBy(s.start, s.lists[ms].items) && FrontDue(s, ms)
    ensures s.lists[ms].items != []
  {
  }

  /** After `k` rounds the callback that began at `s0` is at `s`, and has fired `fired`. */
  ghost predicate Runs(s0: State, s: State, ms: int, script: Script, n: nat, k: nat, fired: seq<Item>)
    requires Inv(s0, {ms}) && ms in s0.lists && Inv(s, {ms}) && ms in s.lists && k <= n
  {
    && (EndsIn(s0, ms, script, 0, n) <==> EndsIn(s, ms, script, k, n - k))
    && (EndsIn(s, ms, script, k, n - k) ==>
          var rest := CallbackIn(s, ms, script, k, n - k);
          CallbackIn(s0, ms, script, 0, n) == (rest.0, fired + rest.1))
  }

  lemma RunsStart(s: State, ms: int, script: Script, n: nat)
    requires Inv(s, {ms}) && ms in s.lists
    ensures Runs(s, s, ms, script, n, 0, [])
  {
    hide Inv, EndsIn, CallbackIn;
    if EndsIn(s, ms, script, 0, n) {
      var rest := CallbackIn(s, ms, script, 0, n).1;
      assert [] + rest == rest;
    }
  }

  lemma RunsOut(s0: State, s: State, ms: int, script: Script, n: nat, fired: seq<Item>)
    requires Inv(s0, {ms}) && ms in s0.lists && Inv(s, {ms}) && ms in s.lists && Runs(s0, s, ms, script, n, n, fired)
    requires ListOk(s, ms) && FrontDue(s, ms)
    ensures !EndsIn(s0, ms, script, 0, n)
  {
    hide Inv, FrontDue, CallbackIn, Fired;
    assert !EndsIn(s, ms, script, n, 0);
  }

  lemma RunsEnd(s0: State, s: State, ms: int, script: Script, n: nat, k: nat, fired: seq<Item>)
    requires Inv(s0, {ms}) && ms in s0.lists && Inv(s, {ms}) && ms in s.lists && k <= n
    requires Runs(s0, s, ms, script, n, k, fired) && ListOk(s, ms) && !FrontDue(s, ms)
    ensures EndsIn(s0, ms, script, 0, n) && CallbackIn(s0, ms, script, 0, n) == (Settled(s, ms), fired)
  {
    hide Inv, FrontDue, Fired, Settled;
    assert EndsIn(s, ms, script, k, n - k);
    assert CallbackIn(s, ms, script, k, n - k) == (Settled(s, ms), []);
    assert fired + [] == fired;
  }

  lemma RunsOn(s0: State, s: State, ms: int, script: Script, n: nat, k: nat, fired: seq<Item>)
    requires Inv(s0, {ms}) && ms in s0.lists && Inv(s, {ms}) && ms in s.lists && k < n
    requires Runs(s0, s, ms, script, n, k, fired) && ListOk(s, ms) && FrontDue(s, ms)
    ensures s.lists[ms].items != [] && var t := Fired(s, ms, script(k));
            && Inv(t, {ms}) && ms in t.lists && Runs(s0, t, ms, script, n, k + 1, fired + [s.lists[ms].items[0]])
  {
    hide Inv, FrontDue, Fired, Settled;
    SomeDue(s, ms);
    FiredInv(s, ms, script(k));
    var t := Fired(s, ms, script(k));
    assert EndsIn(s, ms, script, k, n - k) <==> EndsIn(t, ms, script, k + 1, n - k - 1);
    if EndsIn(t, ms, script, k + 1, n - k - 1) {
      var first, rest := s.lists[ms].items[0], CallbackIn(t, ms, script, k + 1, n - k - 1);
      assert CallbackIn(s, ms, script, k, n - k) == (rest.0, [first] + rest.1);
      assert fired + ([first] + rest.1) == fired + [first] + rest.1;
    }
  }

  ghost predicate About(ops: seq<Op>, x: Item) {
    forall j :: 0 <= j < |ops| ==> ops[j].item == x
  }

  /** Each timeout function makes calls about its own item only. */
  ghost predicate OwnOnly(d: seq<Item>, script: Script, k: nat)
    decreases |d|
  {
    d == [] || (About(script(k), d[0]) && OwnOnly(d[1..], script, k + 1))
  }

  lemma {:induction false} WithoutAllAbsent(d: seq<Item>, ops: seq<Op>, x: Item)
    requires x !in d && About(ops, x)
    ensures WithoutAll(d, ops) == d
    decreases |ops|
  {
    if ops == [] {
    } else {
      WithoutAbsent(d, x);
      WithoutAllAbsent(d, ops[1..], x);
    }
  }

  /** If fired items only re-activate, re-enroll or unenroll themselves, every due item fires, in order. */
  lemma {:induction false} ScheduleAll(d: seq<Item>, script: Script, k: nat)
    requires Distinct(d) && OwnOnly(d, script, k)
    ensures Schedule(d, script, k) == d
    decreases |d|
  {
    if d == [] {
    } else {
      assert d[0] !in d[1..];
      WithoutAllAbsent(d[1..], script(k), d[0]);
      ScheduleAll(d[1..], script, k + 1);
      assert [d[0]] + d[1..] == d;
    }
  }

  // ------------------------------------------------------------------ every run

  /**
   * Time passes, the program calls the module, or a watcher goes off (possibly early or late). For timeouts
   * below 2 ms the callback has `rounds` rounds to end in; for longer ones it always ends.
   */
  datatype Event = Advance(elapsed: nat) | Call(op: Op) | WatcherFires(ms: int, script: Script, rounds: nat)

  /** The callback ends, if there is one. */
  ghost predicate Possible(s: State, e: Event)
    requires Inv(s, {})
  {
    e.WatcherFires? && e.ms in s.lists && e.ms < 2 ==> (Relax(s, e.ms); EndsIn(s, e.ms, e.script, 0, e.rounds))
  }

  ghost function Step(s: State, e: Event): State
    requires Inv(s, {}) && Possible(s, e)
  {
    match e
    case Advance(ms) => s.(now := s.now + ms)
    case Call(op) => Do(s, op, Nobody)
    case WatcherFires(ms, script, rounds) =>
      if ms !in s.lists then s
      else
        Relax(s, ms);
        if ms >= 2 then Callback(s, ms, script, 0).0 else CallbackIn(s, ms, script, 0, rounds).0
  }

  /** The items whose timeout function it calls. */
  ghost function FiredBy(s: State, e: Event): seq<Item>
    requires Inv(s, {}) && Possible(s, e)
  {
    if !e.WatcherFires? || e.ms !in s.lists then []
    else
      Relax(s, e.ms);
      if e.ms >= 2 then Callback(s, e.ms, e.script, 0).1 else CallbackIn(s, e.ms, e.script, 0, e.rounds).1
  }

  lemma Relax(s: State, ms: int)
    requires Inv(s, {})
    ensures Inv(s, {ms})
  {
  }

  lemma StepKeeps(s: State, e: Event)
    requires Inv(s, {}) && Possible(s, e)
    ensures Inv(Step(s, e), {}) && s.now <= Step(s, e).now
  {
    hide Inv, Callback, CallbackIn, EndsIn, Do;
    match e {
      case Advance(ms) => AdvanceKeeps(s, ms);
      case Call(op) => DoKeeps(s, op, Nobody, {});
      case WatcherFires(ms, script, rounds) =>
        if ms in s.lists {
          Relax(s, ms);
          ListInOrder(s, ms);
          if ms >= 2 {
            CallbackFires(s, ms, script, 0);
          } else {
            CallbackInKeeps(s, ms, script, 0, rounds);
          }
        }
    }
  }

  lemma AdvanceKeeps(s: State, ms: nat)
    requires Inv(s, {})
    ensures Inv(s.(now := s.now + ms), {})
  {
    var t := s.(now := s.now + ms);
    forall m | m in t.lists ensures ListOk(t, m) && WatchOk(t, m) {
      assert ListOk(s, m) && WatchOk(s, m);
      forall i | 0 <= i < |t.lists[m].items| ensures ItemOk(t, m, t.lists[m].items[i]) {
        assert ItemOk(s, m, s.lists[m].items[i]);
      }
    }
  }

  /** The events lead from `s` to `t`, and fire the items in `log`, event by event. */
  ghost predicate Reaches(s: State, events: seq<Event>, t: State, log: seq<seq<Item>>)
    requires Inv(s, {})
    decreases |events|
  {
    if events == [] then s == t && log == []
    else
      && log != [] && Possible(s, events[0]) && log[0] == FiredBy(s, events[0])
      && (StepKeeps(s, events[0]); Reaches(Step(s, events[0]), events[1..], t, log[1..]))
  }

  lemma {:induction false} ReachesOne(s: State, events: seq<Event>, t: State, log: seq<seq<Item>>, e: Event)
    requires Inv(s, {}) && Inv(t, {}) && Reaches(s, events, t, log) && Possible(t, e)
    ensures Reaches(s, events + [e], Step(t, e), log + [FiredBy(t, e)])
    decreases |events|
  {
    hide Inv, Step, Possible, FiredBy;
    var more := log + [FiredBy(t, e)];
    if events == [] {
      assert (events + [e])[1..] == [] && more[1..] == [];
      StepKeeps(t, e);
    } else {
      StepKeeps(s, events[0]);
      assert (events + [e])[1..] == events[1..] + [e] && more[1..] == log[1..] + [FiredBy(t, e)];
      ReachesOne(Step(s, events[0]), events[1..], t, log[1..], e);
    }
  }

  /** In every run the lists stay ordered and their watchers right. */
  lemma {:induction false} RunKeeps(s: State, events: seq<Event>, t: State, log: seq<seq<Item>>)
    requires Inv(s, {}) && Reaches(s, events, t, log)
    ensures Inv(t, {}) && s.now <= t.now && |log| == |events|
    decreases |events|
  {
    hide Inv, Step, Possible, FiredBy;
    if events == [] {
    } else {
      StepKeeps(s, events[0]);
      RunKeeps(Step(s, events[0]), events[1..], t, log[1..]);
    }
  }

  /** As long as no watcher is overdue, no item has been idle for longer than its timeout. */
  lemma Punctual(s: State, ms: int, i: nat)
    requires Inv(s, {}) && ms in s.lists && i < |s.lists[ms].items|
    requires s.lists[ms].deadline.Some? ==> s.now <= s.lists[ms].deadline.value
    ensures s.lists[ms].deadline.Some?
    ensures s.lists[ms].items[i] in s.start && s.now - s.start[s.lists[ms].items[i]] <= ms
  {
    assert ListOk(s, ms) && WatchOk(s, ms);
    var items := s.lists[ms].items;
    assert i > 0 ==> s.start[items[0]] <= s.start[items[i]];
  }

  /** A watcher that goes off early fires nobody before the time (but for the last millisecond). */
  lemma NotBeforeTime(s: State, ms: int, x: Item)
    requires ms in s.lists && ListOk(s, ms) && x in Dues(s, ms)
    ensures x in s.lists[ms].items && s.now - s.start[x] >= ms - 1
  {
    DueOfMember(s.lists[ms].items, s.start, s.now, ms, x);
  }

  lemma {:induction false} DueOfMember(items: seq<Item>, start: map<Item, int>, now: int, ms: int, x: Item)
    requires forall i :: 0 <= i < |items| ==> items[i] in start
    ensures x in DueOf(items, start, now, ms) <==> x in items && IsDue(start[x], now, ms)
  {
    if items == [] {
    } else {
      DueOfMember(items[1..], start, now, ms, x);
      assert x in items <==> x == items[0] || x in items[1..];
    }
  }
}
