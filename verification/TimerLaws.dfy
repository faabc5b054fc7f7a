/**
 * What a program gets from lib/timers.js: what each call does to the item it is about and to the others, and when an
 * item that is left alone fires.
 */
module TimerLaws {
  import opened Common
  import opened LinkList
  import opened TimerSpec

  // ------------------------------------------------------------------ the item a call is about

  /** The items of a list, which is empty if there is none. */
  ghost function ItemsOf(s: State, ms: int): seq<Item> {
    if ms in s.lists then s.lists[ms].items else []
  }

  ghost function DeadlineOf(s: State, ms: int): Option<int> {
    if ms in s.lists then s.lists[ms].deadline else None
  }

  /** The other lists lose the item, if they had it; their watchers stay as they are. */
  ghost predicate OthersLose(s: State, t: State, ms: int, item: Item) {
    && (forall m :: m in t.lists <==> m in s.lists || m == ms)
    && forall m :: m in s.lists && m != ms ==>
         t.lists[m].items == Without(s.lists[m].items, item) && t.lists[m].deadline == s.lists[m].deadline
  }

  /**
   * `active`: the item is the last of the list of its timeout and its time starts now. A watcher is armed for an
   * item that starts a list, and is otherwise left alone.
   */
  lemma ActivePuts(s: State, item: Item, self: Firing)
    requires MayActivate(s, item, self)
    ensures var t, ms := Active(s, item, self), s.timeout[item];
            if ms < 0 then t == s
            else
              && ms in t.lists && t.lists[ms].items == Without(ItemsOf(s, ms), item) + [item]
              && t.lists[ms].deadline
                   == (if item in s.idle && ItemsOf(s, ms) == [] then Some(s.now + ms) else DeadlineOf(s, ms))
              && OthersLose(s, t, ms, item)
              && t.start == s.start[item := s.now] && t.timeout == s.timeout && t.idle == s.idle - {item}
              && t.now == s.now
  {
    var ms := s.timeout[item];
    assert s.timeout[item := ms] == s.timeout;
  }

  /** `unenroll`: the item is nowhere; only the watcher of a list that it leaves empty is stopped. */
  lemma UnenrollTakes(s: State, item: Item)
    ensures var t := Unenroll(s, item);
            && !Placed(t, item) && t.lists.Keys == s.lists.Keys
            && (forall m :: m in s.lists ==>
                  && t.lists[m].items == Without(s.lists[m].items, item)
                  && t.lists[m].deadline
                       == (if item in s.timeout && s.timeout[item] == m && t.lists[m].items == [] then None
                           else s.lists[m].deadline))
            && t.start == s.start && t.timeout == s.timeout && t.idle == s.idle - {item} && t.now == s.now
  {
    var t := Unenroll(s, item);
    forall m | m in t.lists
      ensures item !in t.lists[m].items
    {
      NotIn(s.lists[m].items, item);
    }
  }

  lemma NotIn(items: seq<Item>, x: Item)
    ensures x !in Without(items, x)
  {
    WithoutElements(items, x);
    assert x !in Elements(Without(items, x));
  }

  /** `enroll`: the item is alone, with the new timeout, and no list is left with it. */
  lemma EnrollPuts(s: State, item: Item, ms: int)
    ensures var t := Enroll(s, item, ms);
            && item in t.idle && t.idle == s.idle + {item} && t.timeout == s.timeout[item := ms]
            && (forall m :: m in t.lists ==> item !in t.lists[m].items)
            && (forall m :: m in s.lists <==> m in t.lists)
            && (forall m :: m in s.lists ==> t.lists[m].items == Without(s.lists[m].items, item))
            && t.start == s.start && t.now == s.now
    ensures !Placed(s, item) ==> Enroll(s, item, ms).lists == s.lists
  {
    hide Unenroll;
    UnenrollTakes(s, item);
    if !Placed(s, item) {
      forall m | m in s.lists
        ensures Without(s.lists[m].items, item) == s.lists[m].items
      {
        WithoutAbsent(s.lists[m].items, item);
      }
    }
  }

  // ------------------------------------------------------------------ the items it is not about

  ghost predicate In(s: State, ms: int, x: Item) {
    ms in s.lists && x in s.lists[ms].items
  }

  /** Nothing has changed for `x`. */
  ghost predicate SameFor(s: State, t: State, x: Item) {
    && (forall m :: In(s, m, x) <==> In(t, m, x))
    && (x in s.start <==> x in t.start) && (x in s.start ==> s.start[x] == t.start[x])
    && s.now == t.now
  }

  lemma StillIn(items: seq<Item>, y: Item, x: Item)
    requires x != y
    ensures x in Without(items, y) <==> x in items
  {
    WithoutElements(items, y);
    assert x in Elements(Without(items, y)) <==> x in Elements(items);
  }

  lemma SameDrop(s: State, y: Item, x: Item)
    requires x != y
    ensures SameFor(s, Drop(s, y), x)
  {
    forall m
      ensures In(s, m, x) <==> In(Drop(s, y), m, x)
    {
      if m in s.lists { StillIn(s.lists[m].items, y, x); }
    }
  }

  lemma SamePush(s: State, ms: int, y: Item, x: Item)
    requires x != y && ms in s.lists
    ensures SameFor(s, Push(s, ms, y), x)
  {
    hide Drop;
    SameDrop(s, y, x);
    DropLists(s, y);
    var d, t := Drop(s, y), Push(s, ms, y);
    forall m
      ensures In(d, m, x) <==> In(t, m, x)
    {
    }
  }

  lemma SameActive(s: State, y: Item, self: Firing, x: Item)
    requires x != y && MayActivate(s, y, self)
    ensures SameFor(s, Active(s, y, self), x)
  {
    hide Push;
    var ms := s.timeout[y];
    var s0 := s.(start := s.start[y := s.now]);
    assert SameFor(s, s0, x);
    if ms < 0 {
    } else if y in s.idle {
      var s1 := EnsureList(s.(start := s.start[y := s.now], timeout := s.timeout[y := ms]), ms);
      var s2 := if s1.lists[ms].items == [] then SetWatcher(s1, ms, Some(s1.now + ms)) else s1;
      assert SameFor(s, s1, x) && SameFor(s1, s2, x);
      SamePush(s2, ms, y, x);
    } else {
      SamePush(s0, ms, y, x);
    }
  }

  lemma SameUnenroll(s: State, y: Item, x: Item)
    requires x != y
    ensures SameFor(s, Unenroll(s, y), x)
  {
    hide Drop;
    SameDrop(s, y, x);
    var d := Drop(s, y);
    assert SameFor(d, Unenroll(s, y), x);
  }

  lemma SameEnroll(s: State, y: Item, ms: int, x: Item)
    requires x != y
    ensures SameFor(s, Enroll(s, y, ms), x)
  {
    hide Unenroll;
    SameUnenroll(s, y, x);
    var e := if Placed(s, y) then Unenroll(s, y) else s;
    assert SameFor(e, Enroll(s, y, ms), x);
  }

  ghost predicate Leaves(ops: seq<Op>, x: Item) {
    forall j :: 0 <= j < |ops| ==> ops[j].item != x
  }

  lemma SameDo(s: State, op: Op, self: Firing, x: Item)
    requires op.item != x
    ensures SameFor(s, Do(s, op, self), x)
  {
    hide Active, Unenroll, Enroll, MayActivate;
    match op {
      case OpActive(y) => if MayActivate(s, y, self) { SameActive(s, y, self, x); }
      case OpUnenroll(y) => SameUnenroll(s, y, x);
      case OpEnroll(y, ms) => SameEnroll(s, y, ms, x);
    }
  }

  lemma {:induction false} SameDoAll(s: State, ops: seq<Op>, self: Firing, x: Item)
    requires Leaves(ops, x)
    ensures SameFor(s, DoAll(s, ops, self), x)
    decreases |ops|
  {
    hide Do;
    if ops == [] {
    } else {
      SameDo(s, ops[0], self, x);
      SameDoAll(Do(s, ops[0], self), ops[1..], self, x);
    }
  }

  // ------------------------------------------------------------------ callbacks

  ghost predicate Away(s: State, x: Item) {
    forall m :: !In(s, m, x)
  }

  ghost predicate ScriptLeaves(script: Script, x: Item) {
    forall k: nat :: Leaves(script(k), x)
  }

  ghost predicate Once(fired: seq<Item>, x: Item) {
    x in fired && forall i, j :: 0 <= i < j < |fired| ==> fired[i] != x || fired[j] != x
  }

  /** What a callback does to an item that is left alone: it fires and is gone, or nothing has changed for it. */
  ghost predicate Treated(s: State, t: State, fired: seq<Item>, ms: int, x: Item) {
    if x in fired then In(s, ms, x) && Away(t, x) && Once(fired, x) else SameFor(s, t, x)
  }

  lemma DropAway(s: State, x: Item)
    ensures Away(Drop(s, x), x)
  {
    forall m
      ensures !In(Drop(s, x), m, x)
    {
      if m in s.lists { NotIn(s.lists[m].items, x); }
    }
  }

  /** One round. */
  lemma FiredTreats(s: State, ms: int, ops: seq<Op>, x: Item)
    requires ms in s.lists && s.lists[ms].items != [] && Leaves(ops, x)
    ensures var first, t := s.lists[ms].items[0], Fired(s, ms, ops);
            if first == x then In(s, ms, x) && Away(t, x) else SameFor(s, t, x)
  {
    hide Drop, DoAll;
    var first := s.lists[ms].items[0];
    SameDoAll(Drop(s, first), ops, Firing(first, ms), x);
    if first == x {
      DropAway(s, x);
    } else {
      SameDrop(s, first, x);
    }
  }

  lemma TreatedFirst(s: State, u: State, t: State, first: Item, rest: seq<Item>, ms: int, x: Item)
    requires if first == x then In(s, ms, x) && Away(u, x) else SameFor(s, u, x)
    requires Treated(u, t, rest, ms, x)
    ensures Treated(s, t, [first] + rest, ms, x)
  {
    hide In;
    var fired := [first] + rest;
    assert x in fired <==> first == x || x in rest;
    if first == x {
      assert x !in rest && Away(t, x);
    }
  }

  lemma SettledSame(s: State, ms: int, x: Item)
    requires ms in s.lists && SortedBy(s.start, s.lists[ms].items)
    ensures Treated(s, Settled(s, ms), [], ms, x)
  {
  }

  lemma {:induction false} CallbackTreats(s: State, ms: int, script: Script, k: nat, x: Item)
    requires Inv(s, {ms}) && ms in s.lists && ms >= 2 && ScriptLeaves(script, x)
    ensures var (t, fired) := Callback(s, ms, script, k); Treated(s, t, fired, ms, x)
    decreases DueCount(s, ms)
  {
    hide Inv, Fired, FrontDue, Settled, Dues, Treated, SameFor, Away, In, Leaves;
    ListInOrder(s, ms);
    if !FrontDue(s, ms) {
      CallbackStops(s, ms, script, k);
      SettledSame(s, ms, x);
    } else {
      CallbackGoesOn(s, ms, script, k);
      FiredKeeps(s, ms, script(k));
      var u := Fired(s, ms, script(k));
      var rest := Callback(u, ms, script, k + 1);
      FiredTreats(s, ms, script(k), x);
      CallbackTreats(u, ms, script, k + 1, x);
      TreatedFirst(s, u, rest.0, s.lists[ms].items[0], rest.1, ms, x);
    }
  }

  lemma {:induction false} CallbackInTreats(s: State, ms: int, script: Script, k: nat, n: nat, x: Item)
    requires Inv(s, {ms}) && ms in s.lists && EndsIn(s, ms, script, k, n) && ScriptLeaves(script, x)
    ensures var (t, fired) := CallbackIn(s, ms, script, k, n); Treated(s, t, fired, ms, x)
    decreases n
  {
    hide Inv, Fired, FrontDue, Settled, Treated, SameFor, Away, In, Leaves;
    ListInOrder(s, ms);
    if !FrontDue(s, ms) {
      SettledSame(s, ms, x);
    } else {
      SomeDue(s, ms);
      FiredInv(s, ms, script(k));
      var u := Fired(s, ms, script(k));
      var rest := CallbackIn(u, ms, script, k + 1, n - 1);
      FiredTreats(s, ms, script(k), x);
      CallbackInTreats(u, ms, script, k + 1, n - 1, x);
      TreatedFirst(s, u, rest.0, s.lists[ms].items[0], rest.1, ms, x);
    }
  }

  /** The watcher of a list that is not empty is armed for the moment its oldest item is due. */
  ghost predicate ArmedFor(s: State, ms: int) {
    && ms in s.lists && s.lists[ms].items != [] && s.lists[ms].items[0] in s.start
    && s.lists[ms].deadline == Some(s.start[s.lists[ms].items[0]] + ms)
  }

  /** After a callback it is armed so exactly, or stopped. */
  lemma {:induction false} CallbackArms(s: State, ms: int, script: Script, k: nat)
    requires Inv(s, {ms}) && ms in s.lists && ms >= 2
    ensures var t := Callback(s, ms, script, k).0; ms in t.lists && (t.lists[ms] == TList([], None) || ArmedFor(t, ms))
    decreases DueCount(s, ms)
  {
    hide Inv, Fired, FrontDue, Dues;
    ListInOrder(s, ms);
    if !FrontDue(s, ms) {
      CallbackStops(s, ms, script, k);
    } else {
      CallbackGoesOn(s, ms, script, k);
      FiredKeeps(s, ms, script(k));
      CallbackArms(Fired(s, ms, script(k)), ms, script, k + 1);
    }
  }

  lemma {:induction false} CallbackInArms(s: State, ms: int, script: Script, k: nat, n: nat)
    requires Inv(s, {ms}) && ms in s.lists && EndsIn(s, ms, script, k, n)
    ensures var t := CallbackIn(s, ms, script, k, n).0;
            ms in t.lists && (t.lists[ms] == TList([], None) || ArmedFor(t, ms))
    decreases n
  {
    hide Inv, Fired, FrontDue;
    ListInOrder(s, ms);
    if !FrontDue(s, ms) {
    } else {
      SomeDue(s, ms);
      FiredInv(s, ms, script(k));
      CallbackInArms(Fired(s, ms, script(k)), ms, script, k + 1, n - 1);
    }
  }

  lemma {:induction false} ScheduledIsDue(d: seq<Item>, script: Script, k: nat, x: Item)
    ensures x in Schedule(d, script, k) ==> x in d
    decreases |d|
  {
    if d == [] {
    } else {
      var rest := WithoutAll(d[1..], script(k));
      WithoutAllShrinks(d[1..], script(k));
      ScheduledIsDue(rest, script, k + 1, x);
      SubsetOf(d[1..], script(k), x);
      assert x in d[1..] ==> x in d;
    }
  }

  lemma {:induction false} SubsetOf(d: seq<Item>, ops: seq<Op>, x: Item)
    ensures x in WithoutAll(d, ops) ==> x in d
    decreases |ops|
  {
    if ops == [] {
    } else {
      SubsetOf(Without(d, ops[0].item), ops[1..], x);
      WithoutElements(d, ops[0].item);
      assert x in Without(d, ops[0].item) ==> x in Elements(Without(d, ops[0].item));
    }
  }

  // ------------------------------------------------------------------ events

  /** The event is not about `x`, and calls no timeout function that is. */
  ghost predicate Ignores(e: Event, x: Item) {
    match e
    case Advance(_) => true
    case Call(op) => op.item != x
    case WatcherFires(_, script, _) => ScriptLeaves(script, x)
  }

  /** `x` is in a list, idle since `since`. */
  ghost predicate Waits(s: State, ms: int, x: Item, since: int) {
    In(s, ms, x) && x in s.start && s.start[x] == since
  }

  /** Fired means due: for the longer timeouts. */
  lemma LongDue(s: State, ms: int, script: Script, x: Item, since: int)
    requires Inv(s, {ms}) && ms in s.lists && ms >= 2 && ScriptLeaves(script, x) && Waits(s, ms, x, since)
    ensures x in Callback(s, ms, script, 0).1 <==> IsDue(since, s.now, ms)
  {
    hide Inv, Callback, Schedule, ScriptLeaves;
    ListInOrder(s, ms);
    CallbackFires(s, ms, script, 0);
    CallbackTreats(s, ms, script, 0, x);
    var (t, fired) := Callback(s, ms, script, 0);
    ScheduledIsDue(Dues(s, ms), script, 0, x);
    DueOfMember(s.lists[ms].items, s.start, s.now, ms, x);
    if x !in fired {
      assert In(s, ms, x) <==> In(t, ms, x);
      DueOfMember(t.lists[ms].items, t.start, t.now, ms, x);
    }
  }

  /** Below 2 ms everybody is due. */
  lemma ShortDue(s: State, ms: int, script: Script, rounds: nat, x: Item, since: int)
    requires Inv(s, {ms}) && ms in s.lists && ms < 2 && EndsIn(s, ms, script, 0, rounds)
    requires ScriptLeaves(script, x) && Waits(s, ms, x, since)
    ensures x in CallbackIn(s, ms, script, 0, rounds).1 && IsDue(since, s.now, ms)
  {
    MemberOk(s, {ms}, ms, x);
    hide Inv, CallbackIn, EndsIn, ScriptLeaves;
    CallbackInKeeps(s, ms, script, 0, rounds);
    CallbackInTreats(s, ms, script, 0, rounds, x);
    var t := CallbackIn(s, ms, script, 0, rounds).0;
    assert In(s, ms, x) && !In(t, ms, x);
  }

  /** Any event, for any item it ignores. */
  lemma StepTreats(s: State, e: Event, x: Item)
    requires Inv(s, {}) && Possible(s, e) && Ignores(e, x)
    ensures var t, fired := Step(s, e), FiredBy(s, e);
            if x in fired then e.WatcherFires? && In(s, e.ms, x) && Away(t, x) && Once(fired, x)
            else SameFor(s.(now := t.now), t, x)
    ensures Step(s, e).now == s.now + if e.Advance? then e.elapsed else 0
  {
    hide Inv, Do, Callback, CallbackIn, EndsIn, SameFor, Away, Once, In, ScriptLeaves;
    match e {
      case Advance(_) =>
        SameItself(Step(s, e), x);
      case Call(op) =>
        DoKeeps(s, op, Nobody, {});
        SameDo(s, op, Nobody, x);
      case WatcherFires(ms, script, rounds) =>
        if ms in s.lists {
          Relax(s, ms);
          ListInOrder(s, ms);
          if ms >= 2 {
            CallbackFires(s, ms, script, 0);
            CallbackTreats(s, ms, script, 0, x);
          } else {
            CallbackInKeeps(s, ms, script, 0, rounds);
            CallbackInTreats(s, ms, script, 0, rounds, x);
          }
        } else {
          SameItself(s, x);
        }
    }
  }

  lemma SameItself(s: State, x: Item)
    ensures SameFor(s, s, x)
  {
  }

  /** An item that waits fires exactly if the watcher of its list goes off when it is due, and waits on otherwise. */
  lemma StepFires(s: State, e: Event, ms: int, x: Item, since: int)
    requires Inv(s, {}) && Possible(s, e) && Ignores(e, x) && Waits(s, ms, x, since)
    ensures x in FiredBy(s, e) <==> e.WatcherFires? && e.ms == ms && IsDue(since, s.now, ms)
    ensures if x in FiredBy(s, e) then Away(Step(s, e), x) && Once(FiredBy(s, e), x)
            else Waits(Step(s, e), ms, x, since)
  {
    MemberOk(s, {}, ms, x);
    if e.WatcherFires? && e.ms in s.lists { MemberOk(s, {}, e.ms, x); }
    hide Inv, Step, Callback, CallbackIn, EndsIn, Once, ScriptLeaves;
    StepTreats(s, e, x);
    if e.WatcherFires? && e.ms == ms {
      Relax(s, ms);
      if ms >= 2 {
        LongDue(s, ms, e.script, x, since);
      } else {
        ShortDue(s, ms, e.script, e.rounds, x, since);
      }
    }
    assert x !in FiredBy(s, e) ==> In(Step(s, e), ms, x) by {
      assert In(s.(now := Step(s, e).now), ms, x);
    }
  }

  lemma AwayStays(s: State, e: Event, x: Item)
    requires Inv(s, {}) && Possible(s, e) && Ignores(e, x) && Away(s, x)
    ensures x !in FiredBy(s, e) && Away(Step(s, e), x)
  {
    hide Inv, Step, FiredBy, Possible, Once, Ignores;
    StepTreats(s, e, x);
    var u := s.(now := Step(s, e).now);
    assert forall m :: In(u, m, x) ==> In(s, m, x);
  }

  // ------------------------------------------------------------------ whole runs

  /** The first event at which the watcher of the list goes off and an item that has been idle for so long is due. */
  function ExpiresAt(events: seq<Event>, ms: int, idle: int): (n: nat)
    ensures n <= |events|
  {
    if events == [] then 0
    else if events[0].WatcherFires? && events[0].ms == ms && idle + 1 >= ms then 0
    else 1 + ExpiresAt(events[1..], ms, idle + if events[0].Advance? then events[0].elapsed else 0)
  }

  ghost predicate AllIgnore(events: seq<Event>, x: Item) {
    forall k :: 0 <= k < |events| ==> Ignores(events[k], x)
  }

  lemma {:induction false} NeverAgain(s: State, events: seq<Event>, t: State, log: seq<seq<Item>>, x: Item)
    requires Inv(s, {}) && Reaches(s, events, t, log) && AllIgnore(events, x) && Away(s, x)
    ensures Away(t, x) && |log| == |events| && forall k :: 0 <= k < |log| ==> x !in log[k]
    decreases |events|
  {
    hide Inv, Step, FiredBy, Possible, Away, Ignores;
    if events == [] {
    } else {
      StepKeeps(s, events[0]);
      AwayStays(s, events[0], x);
      NeverAgain(Step(s, events[0]), events[1..], t, log[1..], x);
      LogFront(log);
    }
  }

  lemma LogFront(log: seq<seq<Item>>)
    requires log != []
    ensures forall k :: 0 < k < |log| ==> log[k] == log[1..][k - 1]
  {
  }

  /**
   * In every run: an item that is left alone fires at the first watcher of its list that goes off when it is due, once,
   * and at no other time; until then it waits where it is.
   */
  lemma {:induction false} FiresOnce(
      s: State, events: seq<Event>, t: State, log: seq<seq<Item>>, ms: int, x: Item, since: int)
    requires Inv(s, {}) && Reaches(s, events, t, log) && AllIgnore(events, x) && Waits(s, ms, x, since)
    ensures var n := ExpiresAt(events, ms, s.now - since);
            && |log| == |events| && (forall k :: 0 <= k < |log| ==> (x in log[k] <==> k == n))
            && if n < |events| then Once(log[n], x) && Away(t, x) else Waits(t, ms, x, since)
    decreases |events|
  {
    hide Inv, Step, FiredBy, Possible, Away, Ignores, Waits, Once;
    if events == [] {
    } else {
      var e, u := events[0], Step(s, events[0]);
      StepKeeps(s, e);
      StepFires(s, e, ms, x, since);
      StepTreats(s, e, x);
      LogFront(log);
      if x in FiredBy(s, e) {
        NeverAgain(u, events[1..], t, log[1..], x);
      } else {
        FiresOnce(u, events[1..], t, log[1..], ms, x, since);
      }
    }
  }

  /** `setTimeout`: the new timer is the last in the list of its delay and starts now; the other lists are the same. */
  lemma SetTimeoutPuts(s: State, timer: Item, after: int)
    requires !Placed(s, timer) && after > 0
    ensures var e := Enroll(s, timer, after);
            && MayActivate(e, timer, Nobody)
            && var t := Active(e, timer, Nobody);
               && t.now == s.now && Waits(t, after, timer, s.now) && t.timeout == s.timeout[timer := after]
               && t.lists[after].items == ItemsOf(s, after) + [timer]
               && forall m :: m in s.lists && m != after ==> m in t.lists && t.lists[m] == s.lists[m]
  {
    hide Enroll, Active;
    var e := Enroll(s, timer, after);
    EnrollPuts(s, timer, after);
    ActivePuts(e, timer, Nobody);
    forall m | m in s.lists
      ensures Without(s.lists[m].items, timer) == s.lists[m].items
    {
      WithoutAbsent(s.lists[m].items, timer);
    }
  }

  lemma SetTimeoutKeeps(s: State, timer: Item, after: int)
    requires Inv(s, {}) && !Placed(s, timer) && after > 0 && MayActivate(Enroll(s, timer, after), timer, Nobody)
    ensures Inv(Active(Enroll(s, timer, after), timer, Nobody), {})
  {
    hide Inv, Enroll, Active, MayActivate;
    EnrollKeeps(s, timer, after, {});
    ActiveKeeps(Enroll(s, timer, after), timer, Nobody, {});
  }

  /** And it fires at the first watcher of that list that goes off `after` ms later (or one before), exactly once. */
  lemma SetTimeoutFires(
      s: State, timer: Item, after: int, events: seq<Event>, t: State, log: seq<seq<Item>>)
    requires Inv(s, {}) && !Placed(s, timer) && after > 0 && AllIgnore(events, timer)
    requires var e := Enroll(s, timer, after);
             && MayActivate(e, timer, Nobody) && Inv(Active(e, timer, Nobody), {})
             && Reaches(Active(e, timer, Nobody), events, t, log)
    ensures |log| == |events|
    ensures forall k :: 0 <= k < |log| ==> (timer in log[k] <==> k == ExpiresAt(events, after, 0))
  {
    hide Inv, Enroll, Active, MayActivate, Reaches;
    SetTimeoutPuts(s, timer, after);
    FiresOnce(Active(Enroll(s, timer, after), timer, Nobody), events, t, log, after, timer, s.now);
  }

  /** `clearTimeout`: an item that was taken out does not fire. */
  lemma ClearedNeverFires(s: State, timer: Item, events: seq<Event>, t: State, log: seq<seq<Item>>)
    requires Inv(s, {}) && Inv(Unenroll(s, timer), {}) && AllIgnore(events, timer)
    requires Reaches(Unenroll(s, timer), events, t, log)
    ensures forall k :: 0 <= k < |log| ==> timer !in log[k]
  {
    hide Inv, Unenroll, Reaches, AllIgnore;
    UnenrollTakes(s, timer);
    NeverAgain(Unenroll(s, timer), events, t, log, timer);
  }
}
