/**
 * src/node.js `process.nextTick` and `process._tickCallback`, with the `need_tick_cb` flag of src/node.cc.
 * Callbacks are opaque: an oracle says, for each call made during a tick, what the callback registers and
 * whether it throws.
 */
module NextTick {

  type Callback = nat

  /** What one call of a callback does. */
  datatype Outcome = Outcome(adds: seq<Callback>, throws: bool)

  type Oracle = nat -> Outcome

  /** The queue and the flag, with the history of registrations and of started callbacks. */
  datatype State = State(queue: seq<Callback>, needTick: bool, registered: seq<Callback>, started: seq<Callback>)

  const INIT := State([], false, [], [])

  // ------------------------------------------------------------------ specification

  function AfterNextTick(s: State, cb: Callback): State {
    s.(queue := s.queue + [cb], needTick := true, registered := s.registered + [cb])
  }

  /** How many of the next `l - i` calls are made: up to and including the first that throws. */
  function Calls(oracle: Oracle, i: nat, l: nat): (k: nat)
    requires i <= l
    ensures i <= k <= l && (i < l ==> i < k)
    decreases l - i
  {
    if i == l then l else if oracle(i).throws then i + 1 else Calls(oracle, i + 1, l)
  }

  function Added(oracle: Oracle, k: nat): seq<Callback> {
    if k == 0 then [] else Added(oracle, k - 1) + oracle(k - 1).adds
  }

  /** One `Tick` of the event loop. */
  function AfterTick(s: State, oracle: Oracle): State {
    if !s.needTick then s
    else
      var l := |s.queue|;
      var k := Calls(oracle, 0, l);
      var added := Added(oracle, k);
      State(s.queue[k..] + added, k < l || added != [], s.registered + added, s.started + s.queue[..k])
  }

  /** Nothing is lost, repeated or reordered, and waiting callbacks have a tick coming. */
  ghost predicate Sound(s: State) {
    s.started + s.queue == s.registered && (s.queue != [] ==> s.needTick)
  }

  /** After `i` calls of a batch that began at `s`: nothing is taken off the queue yet. */
  function InBatch(s: State, oracle: Oracle, i: nat): State
    requires i <= |s.queue|
  {
    var added := Added(oracle, i);
    State(s.queue + added, added != [], s.registered + added, s.started + s.queue[..i])
  }

  lemma InBatchAt(s: State, oracle: Oracle, i: nat)
    requires i < |s.queue|
    ensures var b := InBatch(s, oracle, i); |b.queue| >= |s.queue| && b.queue[i] == s.queue[i]
  {
  }

  lemma BatchStarts(s: State, oracle: Oracle)
    ensures InBatch(s, oracle, 0) == s.(needTick := false)
  {
    assert s.queue + [] == s.queue && s.registered + [] == s.registered && s.started + [] == s.started;
  }

  lemma NothingQueued(s: State, oracle: Oracle)
    requires s.queue == [] && s.needTick
    ensures AfterTick(s, oracle) == s.(needTick := false)
  {
    assert s.registered + [] == s.registered && s.started + [] == s.started;
  }

  lemma CallsOne(oracle: Oracle, i: nat, l: nat)
    requires i <= l
    ensures Calls(oracle, i, l) ==
              if i == l then l else if oracle(i).throws then i + 1 else Calls(oracle, i + 1, l)
  {
  }

  /** One more call. */
  lemma BatchGoesOn(s: State, oracle: Oracle, i: nat, t: State)
    requires i < |s.queue|
    requires var b := InBatch(s, oracle, i); var adds := oracle(i).adds;
             t == State(b.queue + adds, b.needTick || adds != [], b.registered + adds, b.started + [s.queue[i]])
    ensures t == InBatch(s, oracle, i + 1)
  {
    Prefixes(s.queue, Added(oracle, i), oracle(i).adds, 0);
    Prefixes(s.registered, Added(oracle, i), oracle(i).adds, 0);
    assert s.queue[..i + 1] == s.queue[..i] + [s.queue[i]];
    assert s.started + s.queue[..i] + [s.queue[i]] == s.started + (s.queue[..i] + [s.queue[i]]);
  }

  /** The calls made are taken off. */
  lemma BatchEnds(s: State, oracle: Oracle, k: nat)
    requires k == Calls(oracle, 0, |s.queue|) && s.needTick
    ensures var b := InBatch(s, oracle, k);
            && |b.queue| >= |s.queue|
            && AfterTick(s, oracle) == b.(queue := b.queue[k..], needTick := k < |s.queue| || b.needTick)
  {
    Prefixes(s.queue, Added(oracle, k), [], k);
  }

  lemma Prefixes(a: seq<Callback>, b: seq<Callback>, c: seq<Callback>, k: nat)
    requires k <= |a|
    ensures a + b + c == a + (b + c)
    ensures (a + b)[k..] == a[k..] + b && (a + (b + c))[k..] == a[k..] + (b + c)
  {
  }

  // ------------------------------------------------------------------ the code

  class Process {
    var nextTickQueue: seq<Callback>
    var needTickCb: bool
    ghost var registered: seq<Callback>
    ghost var started: seq<Callback>

    constructor ()
      ensures Abs() == INIT
    {
      nextTickQueue, needTickCb, registered, started := [], false, [], [];
    }

    ghost function Abs(): State
      reads this
    {
      State(nextTickQueue, needTickCb, registered, started)
    }

    /** `process.nextTick`. */
    method NextTick(callback: Callback)
      modifies this
      ensures Abs() == AfterNextTick(old(Abs()), callback)
    {
      nextTickQueue := nextTickQueue + [callback];
      registered := registered + [callback];
      needTickCb := true;
    }

    /** The body of a callback, as far as the queue can tell: it registers others one by one. */
    method Call(callback: Callback, outcome: Outcome) returns (threw: bool)
      modifies this
      ensures threw == outcome.throws
      ensures nextTickQueue == old(nextTickQueue) + outcome.adds && registered == old(registered) + outcome.adds
      ensures started == old(started) + [callback]
      ensures needTickCb == (old(needTickCb) || outcome.adds != [])
    {
      started := started + [callback];
      for j := 0 to |outcome.adds|
        invariant nextTickQueue == old(nextTickQueue) + outcome.adds[..j]
        invariant registered == old(registered) + outcome.adds[..j]
        invariant started == old(started) + [callback]
        invariant needTickCb == (old(needTickCb) || j > 0)
      {
        NextTick(outcome.adds[j]);
      }
      threw := outcome.throws;
    }

    /** `process._tickCallback`: the batch is what was queued at its start; a throw cuts it short. */
    method TickCallback(oracle: Oracle) returns (threw: bool)
      requires !needTickCb
      modifies this
      ensures var s := old(Abs()).(needTick := true); Abs() == AfterTick(s, oracle)
      ensures threw ==> old(nextTickQueue) != []
    {
      hide Added, AfterTick, InBatch, Calls;
      var l := |nextTickQueue|;
      ghost var s := Abs().(needTick := true);
      if l == 0 {
        NothingQueued(s, oracle);
        return false;
      }
      var i := 0;
      threw := false;
      BatchStarts(s, oracle);
      while i < l
        invariant 0 <= i <= l == |s.queue| && Abs() == InBatch(s, oracle, i)
        invariant Calls(oracle, 0, l) == Calls(oracle, i, l)
      {
        InBatchAt(s, oracle, i);
        CallsOne(oracle, i, l);
        threw := Call(nextTickQueue[i], oracle(i));
        BatchGoesOn(s, oracle, i, Abs());
        if threw {
          BatchEnds(s, oracle, i + 1);
          nextTickQueue := nextTickQueue[i + 1..];
          if i + 1 < l {
            needTickCb := true;
          }
          return;
        }
        i := i + 1;
      }
      CallsOne(oracle, l, l);
      BatchEnds(s, oracle, l);
      nextTickQueue := nextTickQueue[l..];
    }

    /** `Tick` in src/node.cc: clears the flag, then runs the batch. */
    method Tick(oracle: Oracle)
      modifies this
      ensures Abs() == AfterTick(old(Abs()), oracle)
    {
      if !needTickCb { return; }
      needTickCb := false;
      var _ := TickCallback(oracle);
    }
  }

  // ------------------------------------------------------------------ every run

  datatype Event = Register(cb: Callback) | Loop(oracle: Oracle)

  function Step(s: State, e: Event): State {
    match e
    case Register(cb) => AfterNextTick(s, cb)
    case Loop(oracle) => AfterTick(s, oracle)
  }

  function Run(s: State, events: seq<Event>): State
    decreases |events|
  {
    if events == [] then s else Run(Step(s, events[0]), events[1..])
  }

  function Loops(events: seq<Event>): nat {
    if events == [] then 0 else (if events[0].Loop? then 1 else 0) + Loops(events[1..])
  }

  /** One step keeps the books; a tick starts only callbacks registered before it, and at least one if any wait. */
  lemma StepSound(s: State, e: Event)
    requires Sound(s)
    ensures var t := Step(s, e);
            && Sound(t) && s.registered <= t.registered && s.started <= t.started
            && |t.started| <= |s.registered|
            && (e.Loop? && s.queue != [] ==> |t.started| > |s.started|)
  {
    if e.Loop? && s.needTick {
      var k := Calls(e.oracle, 0, |s.queue|);
      assert s.queue[..k] + s.queue[k..] == s.queue;
      assert s.started + s.queue[..k] + (s.queue[k..] + Added(e.oracle, k)) == s.started + s.queue + Added(e.oracle, k);
    }
  }

  /** Over every run: each registration is started once, in order, and no wake-up is lost. */
  lemma {:induction false} RunSound(s: State, events: seq<Event>)
    requires Sound(s)
    ensures var t := Run(s, events); Sound(t) && s.registered <= t.registered && s.started <= t.started
    decreases |events|
  {
    if events == [] {
    } else {
      StepSound(s, events[0]);
      RunSound(Step(s, events[0]), events[1..]);
    }
  }

  /**
   * However often callbacks throw or register more, the callback waiting at position `p` starts within `p + 1`
   * ticks.
   */
  lemma {:induction false} WaitIsBounded(s: State, p: nat, events: seq<Event>)
    requires Sound(s) && p < |s.queue| && Loops(events) > p
    ensures var t := Run(s, events); var n := |s.started| + p;
            n < |t.started| && n < |s.registered| && t.started[n] == s.registered[n] == s.queue[p]
    decreases |events|
  {
    var s' := Step(s, events[0]);
    var n := |s.started| + p;
    StepSound(s, events[0]);
    RunSound(s', events[1..]);
    assert s.registered[n] == s.queue[p];
    assert s'.registered[n] == s.registered[n];
    if n < |s'.started| {
      assert s'.started[n] == (s'.started + s'.queue)[n];
    } else {
      WaitIsBounded(s', n - |s'.started|, events[1..]);
    }
  }
}
