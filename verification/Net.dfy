/**
 * lib/net.js: the write queue of a socket and the byte pool that all sockets share. The kernel may take any
 * part of what it is given; what it leaves stays behind as slices of the pool.
 */
module Net {

  import opened Common

  newtype Unit = n: int | 0 <= n < 65536
  type Bytes = seq<Byte>
  type Chars = seq<Unit>

  const POOL_SIZE: nat := 40 * 1024
  const MIN_POOL_SPACE: nat := 128

  // ------------------------------------------------------------------ encodings

  datatype Encoding = Default | Utf8 | Ascii | Ucs2

  /** The bytes of one UTF-16 code unit. */
  function EncodeUnit(e: Encoding, u: Unit): (b: Bytes)
    ensures 1 <= |b| <= 3
  {
    match e
    case Ascii => [(u as int % 256) as Byte]
    case Ucs2 => [(u as int % 256) as Byte, (u as int / 256) as Byte]
    case _ =>
      var n := u as int;
      if n < 0x80 then [n as Byte]
      else if n < 0x800 then [(0xC0 + n / 64) as Byte, (0x80 + n % 64) as Byte]
      else [(0xE0 + n / 4096) as Byte, (0x80 + n / 64 % 64) as Byte, (0x80 + n % 64) as Byte]
  }

  function EncodeText(e: Encoding, s: Chars): Bytes {
    if s == [] then [] else EncodeUnit(e, s[0]) + EncodeText(e, s[1..])
  }

  lemma {:induction false} EncodeAppend(e: Encoding, a: Chars, b: Chars)
    ensures EncodeText(e, a + b) == EncodeText(e, a) + EncodeText(e, b)
  {
    hide EncodeUnit;
    if a == [] {
      assert a + b == b;
    } else {
      assert (a + b)[1..] == a[1..] + b;
      EncodeAppend(e, a[1..], b);
      Assoc(EncodeUnit(e, a[0]), EncodeText(e, a[1..]), EncodeText(e, b));
    }
  }

  lemma EncodeNonempty(e: Encoding, s: Chars)
    requires s != []
    ensures EncodeText(e, s) != []
  {
    assert |EncodeUnit(e, s[0])| >= 1;
  }

  /** How many characters fit into `room` bytes: whole characters only. */
  function Fit(e: Encoding, s: Chars, room: nat): (k: nat)
    ensures k <= |s| && |EncodeText(e, s[..k])| <= room
    ensures s != [] && room >= 3 ==> k >= 1
  {
    if s == [] || |EncodeUnit(e, s[0])| > room then 0
    else
      var k := 1 + Fit(e, s[1..], room - |EncodeUnit(e, s[0])|);
      assert s[..k][0] == s[0] && s[..k][1..] == s[1..][..k - 1];
      k
  }

  /** Not one character more would fit. */
  lemma {:induction false} FitIsMost(e: Encoding, s: Chars, room: nat)
    requires Fit(e, s, room) < |s|
    ensures |EncodeText(e, s[..Fit(e, s, room) + 1])| > room
  {
    var k := Fit(e, s, room);
    if k == 0 {
      assert s[..1][0] == s[0] && s[..1][1..] == [];
    } else {
      FitIsMost(e, s[1..], room - |EncodeUnit(e, s[0])|);
      assert s[..k + 1][0] == s[0] && s[..k + 1][1..] == s[1..][..k];
    }
  }

  // ------------------------------------------------------------------ the shared pool

  datatype Slice = Slice(arr: array<Byte>, start: nat, end: nat)

  type Handed = map<Slice, Bytes>

  /** The slice still holds what it held when it was handed out. */
  ghost predicate Intact(s: Slice, b: Bytes)
    reads s.arr
  {
    s.start <= s.end <= s.arr.Length && s.arr[s.start..s.end] == b
  }

  class Pool {
    var buffer: array?<Byte>
    var used: nat
    ghost var handed: Handed
    ghost var arrays: set<array<Byte>>

    ghost predicate Room()
      reads this
    {
      (buffer == null ==> used == 0) && (buffer != null ==> buffer.Length == POOL_SIZE && used <= POOL_SIZE)
    }

    /** No slice handed out reaches above `limit` in the current buffer. */
    ghost predicate Below(limit: nat)
      reads this
    {
      forall s :: s in handed && s.arr == buffer ==> s.end <= limit
    }

    /** Every slice ever handed out lies below `used` and keeps its bytes. */
    ghost predicate Valid()
      reads this, arrays
    {
      Room() && Below(used) && forall s :: s in handed ==> s.arr in arrays && Intact(s, handed[s])
    }

    constructor ()
      ensures Valid() && handed == map[]
    {
      buffer, used, handed, arrays := null, 0, map[], {};
    }

    /** Lines 407-410 and 616-621: a new buffer when little room is left; the old one is left to its slices. */
    method Reserve()
      requires Valid()
      modifies this`buffer, this`used
      ensures Valid() && buffer != null && POOL_SIZE - used >= MIN_POOL_SPACE
      ensures if old(buffer != null && POOL_SIZE - used >= MIN_POOL_SPACE)
              then buffer == old(buffer) && used == old(used)
              else fresh(buffer) && used == 0
    {
      if buffer == null || buffer.Length - used < MIN_POOL_SPACE {
        buffer := new Byte[POOL_SIZE](_ => 0);
        used := 0;
      }
    }

    /** Bytes are put at the free end of the buffer: nothing handed out can change. */
    method Fill(b: Bytes)
      requires Valid() && buffer != null && used + |b| <= POOL_SIZE
      modifies this`used, buffer
      ensures Valid() && used == old(used) + |b| && buffer[old(used)..used] == b && Below(old(used))
    {
      var at := used;
      for k := 0 to |b|
        invariant Room() && used == at && Below(at)
        invariant forall s :: s in handed ==> s.arr in arrays && Intact(s, handed[s])
        invariant buffer[at..at + k] == b[..k]
      {
        buffer[at + k] := b[k];
        assert buffer[at..at + k + 1] == buffer[at..at + k] + [b[k]];
      }
      used := used + |b|;
      assert b[..|b|] == b;
    }

    /** Lines 407-423: as many characters as fit, in a new buffer if there is little room. */
    method Put(chars: Chars, e: Encoding) returns (k: nat, len: nat)
      requires Valid()
      modifies this`buffer, this`used, if buffer == null then {} else {buffer}
      ensures Valid() && buffer != null && (buffer == old(buffer) || fresh(buffer))
      ensures k <= |chars| && len == |EncodeText(e, chars[..k])| && (chars != [] ==> len > 0)
      ensures len <= used && buffer[used - len..used] == EncodeText(e, chars[..k]) && Below(used - len)
      ensures k < |chars| ==> (used - len) + |EncodeText(e, chars[..k + 1])| > POOL_SIZE
    {
      hide EncodeUnit, EncodeText, Fit;
      Reserve();
      k := Fit(e, chars, POOL_SIZE - used);
      if k < |chars| { FitIsMost(e, chars, POOL_SIZE - used); }
      var bytes := EncodeText(e, chars[..k]);
      len := |bytes|;
      Fill(bytes);
      if k > 0 { EncodeNonempty(e, chars[..k]); }
    }

    /** `pool.slice(start, end)` given to somebody. */
    method HandOut(start: nat, end: nat) returns (s: Slice)
      requires Valid() && buffer != null && start <= end <= used
      modifies this`handed, this`arrays
      ensures Valid() && s == Slice(buffer, start, end) && handed == old(handed)[s := buffer[start..end]]
      ensures forall t :: t in old(handed) ==> handed[t] == old(handed)[t]
    {
      s := Slice(buffer, start, end);
      handed := handed[s := buffer[start..end]];
      arrays := arrays + {s.arr};
    }

    /** Line 461: space is given back, provided no slice was handed out there. */
    method GiveBack(len: nat)
      requires Valid() && len <= used && Below(used - len)
      modifies this`used
      ensures Valid() && used == old(used) - len
    {
      used := used - len;
    }

    /** A buffer of the program's own, or one it received: it promises not to change it while it is queued. */
    method Adopt(s: Slice)
      requires Valid() && s.start <= s.end <= s.arr.Length && (s.arr == buffer ==> s.end <= used)
      modifies this`handed, this`arrays
      ensures Valid() && s in handed && handed[s] == s.arr[s.start..s.end]
      ensures forall t :: t in old(handed) ==> t in handed && handed[t] == old(handed)[t]
    {
      handed := handed[s := s.arr[s.start..s.end]];
      arrays := arrays + {s.arr};
    }

    /** `_onReadable`: the kernel fills as much of the free part as it likes; that part is handed out as a slice. */
    method Receive(arriving: Bytes) returns (s: Slice, count: nat)
      requires Valid()
      modifies this, if buffer == null then {} else {buffer}
      ensures Valid() && count <= |arriving| && (arriving != [] ==> count > 0)
      ensures s in handed && handed[s] == arriving[..count] && (count < |arriving| ==> used == POOL_SIZE)
      ensures Grows(old(handed), handed) && (buffer == old(buffer) || fresh(buffer))
    {
      Reserve();
      var start := used;
      count := if |arriving| <= POOL_SIZE - used then |arriving| else POOL_SIZE - used;
      Fill(arriving[..count]);
      s := HandOut(start, used);
    }
  }

  // ------------------------------------------------------------------ the write queue

  datatype Data = Text(chars: Chars) | Buffer(slice: Slice)

  /** What stands in `_writeQueue`; the end-of-file mark has no entry in `_writeQueueEncoding`. */
  datatype Chunk = Chunk(data: Data) | EndOfFile

  function Length(d: Data): nat {
    if d.Text? then |d.chars| else if d.slice.start <= d.slice.end then d.slice.end - d.slice.start else 0
  }

  ghost function Encoded(d: Data, e: Encoding, handed: Handed): Bytes {
    match d
    case Text(chars) => EncodeText(e, chars)
    case Buffer(s) => if s in handed then handed[s] else []
  }

  /** What the queue still has to deliver. */
  ghost function Pending(q: seq<Chunk>, encs: seq<Encoding>, handed: Handed): Bytes {
    if q == [] || q[0].EndOfFile? || encs == [] then []
    else Encoded(q[0].data, encs[0], handed) + Pending(q[1..], encs[1..], handed)
  }

  function TotalLength(q: seq<Chunk>): nat {
    if q == [] then 0 else (if q[0].Chunk? then Length(q[0].data) else 0) + TotalLength(q[1..])
  }

  predicate EndsInEof(q: seq<Chunk>) {
    q != [] && q[|q| - 1].EndOfFile?
  }

  ghost predicate ChunkOk(c: Chunk, handed: Handed) {
    c.Chunk? && (c.data.Buffer? ==> c.data.slice in handed && c.data.slice.start <= c.data.slice.end)
  }

  /** The parallel arrays are aligned, the end-of-file mark is last, and queued slices were handed out. */
  ghost predicate QueueOk(q: seq<Chunk>, encs: seq<Encoding>, handed: Handed) {
    var n := if EndsInEof(q) then |q| - 1 else |q|;
    |encs| == n && forall i :: 0 <= i < n ==> ChunkOk(q[i], handed)
  }

  ghost predicate Grows(a: Handed, b: Handed) {
    forall s :: s in a ==> s in b && b[s] == a[s]
  }

  lemma {:induction false} PendingGrows(q: seq<Chunk>, encs: seq<Encoding>, a: Handed, b: Handed)
    requires QueueOk(q, encs, a) && Grows(a, b)
    ensures QueueOk(q, encs, b) && Pending(q, encs, a) == Pending(q, encs, b)
  {
    if q != [] && q[0].Chunk? && encs != [] {
      assert ChunkOk(q[0], a);
      QueueTail(q, encs, a);
      PendingGrows(q[1..], encs[1..], a, b);
    }
  }

  lemma QueueTail(q: seq<Chunk>, encs: seq<Encoding>, handed: Handed)
    requires QueueOk(q, encs, handed) && q != [] && q[0].Chunk?
    ensures encs != [] && ChunkOk(q[0], handed) && QueueOk(q[1..], encs[1..], handed)
  {
    assert EndsInEof(q) <==> EndsInEof(q[1..]);
  }

  lemma {:induction false} PendingAppend(q: seq<Chunk>, encs: seq<Encoding>, d: Data, e: Encoding, handed: Handed)
    requires QueueOk(q, encs, handed) && !EndsInEof(q)
    ensures Pending(q + [Chunk(d)], encs + [e], handed) == Pending(q, encs, handed) + Encoded(d, e, handed)
    ensures TotalLength(q + [Chunk(d)]) == TotalLength(q) + Length(d)
  {
    var q', encs' := q + [Chunk(d)], encs + [e];
    if q == [] {
      assert q'[1..] == [] && encs'[1..] == [];
    } else {
      assert q[0].Chunk? by { assert ChunkOk(q[0], handed); }
      QueueTail(q, encs, handed);
      PendingAppend(q[1..], encs[1..], d, e, handed);
      assert q'[1..] == q[1..] + [Chunk(d)] && encs'[1..] == encs[1..] + [e];
      Assoc(Encoded(q[0].data, encs[0], handed), Pending(q[1..], encs[1..], handed), Encoded(d, e, handed));
    }
  }

  lemma QueueAppend(q: seq<Chunk>, encs: seq<Encoding>, d: Data, e: Encoding, handed: Handed)
    requires QueueOk(q, encs, handed) && !EndsInEof(q) && ChunkOk(Chunk(d), handed)
    ensures QueueOk(q + [Chunk(d)], encs + [e], handed) && !EndsInEof(q + [Chunk(d)])
  {
  }

  /** Taking the first chunk off. */
  lemma PendingShift(q: seq<Chunk>, encs: seq<Encoding>, handed: Handed)
    requires QueueOk(q, encs, handed) && q != [] && q[0].Chunk?
    ensures encs != [] && ChunkOk(q[0], handed) && QueueOk(q[1..], encs[1..], handed)
    ensures Pending(q, encs, handed) == Encoded(q[0].data, encs[0], handed) + Pending(q[1..], encs[1..], handed)
    ensures TotalLength(q) == Length(q[0].data) + TotalLength(q[1..]) && (EndsInEof(q) <==> EndsInEof(q[1..]))
  {
    QueueTail(q, encs, handed);
  }

  /** The end-of-file mark stands alone once everything before it is gone. */
  lemma EofAlone(q: seq<Chunk>, encs: seq<Encoding>, handed: Handed)
    requires QueueOk(q, encs, handed) && q != [] && q[0].EndOfFile?
    ensures q == [EndOfFile] && encs == [] && Pending(q, encs, handed) == [] && TotalLength(q) == 0 && EndsInEof(q)
  {
    assert |q| > 1 ==> ChunkOk(q[0], handed);
    assert q == [EndOfFile];
  }

  lemma {:induction false} PendingEof(q: seq<Chunk>, encs: seq<Encoding>, handed: Handed)
    requires QueueOk(q, encs, handed) && !EndsInEof(q)
    ensures QueueOk(q + [EndOfFile], encs, handed) && EndsInEof(q + [EndOfFile])
    ensures Pending(q + [EndOfFile], encs, handed) == Pending(q, encs, handed)
    ensures TotalLength(q + [EndOfFile]) == TotalLength(q)
  {
    if q == [] {
    } else {
      assert ChunkOk(q[0], handed);
      QueueTail(q, encs, handed);
      PendingEof(q[1..], encs[1..], handed);
      assert (q + [EndOfFile])[1..] == q[1..] + [EndOfFile];
    }
  }

  lemma LastChunk(q: seq<Chunk>, encs: seq<Encoding>, handed: Handed)
    requires QueueOk(q, encs, handed) && !EndsInEof(q)
    ensures |encs| == |q| && (q != [] ==> q[|q| - 1].Chunk?)
  {
  }

  lemma EncodeNothing(e: Encoding, handed: Handed)
    ensures Encoded(Text([]), e, handed) == []
  {
  }

  lemma EmptyQueue(handed: Handed)
    ensures QueueOk([], [], handed) && Pending([], [], handed) == [] && TotalLength([]) == 0 && !EndsInEof([])
  {
  }

  lemma PendingEmpty(encs: seq<Encoding>, handed: Handed)
    ensures Pending([], encs, handed) == []
  {
  }

  /** Adding to the text that stands last is the same as queueing it after that text. */
  lemma PendingExtend(q: seq<Chunk>, encs: seq<Encoding>, more: Chars, handed: Handed)
    requires QueueOk(q, encs, handed) && q != [] && !EndsInEof(q) && q[|q| - 1].data.Text?
    ensures var n := |q| - 1; var q' := q[n := Chunk(Text(q[n].data.chars + more))];
            && QueueOk(q', encs, handed) && !EndsInEof(q')
            && Pending(q', encs, handed) == Pending(q, encs, handed) + EncodeText(encs[n], more)
            && TotalLength(q') == TotalLength(q) + |more|
  {
    var n := |q| - 1;
    var init, e, was := q[..n], encs[n], q[n].data.chars;
    var q' := q[n := Chunk(Text(was + more))];
    assert q == init + [Chunk(Text(was))] && q' == init + [Chunk(Text(was + more))] && encs == encs[..n] + [e];
    assert QueueOk(init, encs[..n], handed) && !EndsInEof(init) by {
      assert forall i :: 0 <= i < n ==> ChunkOk(q[i], handed);
      assert init != [] ==> init[|init| - 1] == q[n - 1];
    }
    PendingAppend(init, encs[..n], Text(was), e, handed);
    PendingAppend(init, encs[..n], Text(was + more), e, handed);
    EncodeAppend(e, was, more);
    Assoc(Pending(init, encs[..n], handed), EncodeText(e, was), EncodeText(e, more));
    assert forall i :: 0 <= i < n ==> q'[i] == q[i];
  }

  /** Putting something back at the front. */
  lemma PendingUnshift(q: seq<Chunk>, encs: seq<Encoding>, d: Data, e: Encoding, handed: Handed)
    requires QueueOk(q, encs, handed) && ChunkOk(Chunk(d), handed)
    ensures var q', encs' := [Chunk(d)] + q, [e] + encs;
            && QueueOk(q', encs', handed) && (EndsInEof(q') <==> EndsInEof(q))
            && Pending(q', encs', handed) == Encoded(d, e, handed) + Pending(q, encs, handed)
            && TotalLength(q') == Length(d) + TotalLength(q)
  {
    var q', encs' := [Chunk(d)] + q, [e] + encs;
    assert q'[1..] == q && encs'[1..] == encs;
    assert forall i :: 0 < i < |q'| ==> q'[i] == q[i - 1];
  }

  lemma Regroup(k: Bytes, b: Bytes, n: nat, p: Bytes)
    requires n <= |b|
    ensures (k + b[..n]) + (b[n..] + p) == k + (b + p)
  {
    assert b == b[..n] + b[n..];
  }

  // ------------------------------------------------------------------ the socket

  /** What a socket looks like between two calls. */
  datatype State = State(
    queue: seq<Chunk>, encodings: seq<Encoding>, bufferSize: int,
    connecting: bool, writable: bool, watcher: bool, destroyed: bool,
    kernel: Bytes, accepted: Bytes, abandoned: bool)

  /** The queue is sound and its size is counted; a destroyed socket watches nothing. */
  ghost predicate Sound(v: State, handed: Handed) {
    && QueueOk(v.queue, v.encodings, handed)
    && v.bufferSize == TotalLength(v.queue)
    && (v.destroyed ==> !v.writable && !v.watcher)
    && (v.connecting ==> v.destroyed || (v.writable && v.watcher))
  }

  /** No wake-up is missing: a connected socket with something to do watches for writability. */
  predicate Awake(v: State) {
    && (v.queue != [] && !v.connecting && !v.destroyed ==> v.watcher)
    && (!v.writable && !v.connecting ==> v.queue == [])
  }

  /** The kernel has got the accepted data except for what is queued. */
  ghost predicate Conserved(v: State, handed: Handed) {
    v.abandoned || v.kernel + Pending(v.queue, v.encodings, handed) == v.accepted
  }

  ghost predicate Ok(v: State, handed: Handed) {
    Sound(v, handed) && Awake(v) && Conserved(v, handed)
  }

  /** What one socket hands out does not disturb another. */
  lemma OkGrows(v: State, a: Handed, b: Handed)
    requires Ok(v, a) && Grows(a, b)
    ensures Ok(v, b)
  {
    PendingGrows(v.queue, v.encodings, a, b);
  }

  lemma DestroyedOk(v: State, handed: Handed)
    requires Conserved(v, handed)
    ensures Ok(v.(queue := [], encodings := [], bufferSize := 0, writable := false, watcher := false, destroyed := true,
                  abandoned := v.abandoned || v.queue != []), handed)
  {
    hide QueueOk, Pending, TotalLength;
    EmptyQueue(handed);
    PendingEmpty(v.encodings, handed);
  }

  /** What `Write` answers: whether everything reached the kernel, or an exception. */
  datatype Answer = Flushed(all: bool) | Threw

  class Socket {
    const pool: Pool
    var writeQueue: seq<Chunk>
    var writeQueueEncoding: seq<Encoding>
    var bufferSize: int
    var connecting: bool
    var writable: bool
    var readable: bool
    var watcher: bool
    var destroyOnDrain: bool
    var destroyed: bool
    ghost var kernel: Bytes
    ghost var accepted: Bytes
    ghost var abandoned: bool

    ghost function View(): State
      reads this
    {
      State(writeQueue, writeQueueEncoding, bufferSize, connecting, writable, watcher, destroyed, kernel, accepted,
          abandoned)
    }

    /** What is still to be delivered. */
    ghost function Left(): Bytes
      reads this, pool
    {
      Pending(writeQueue, writeQueueEncoding, pool.handed)
    }

    /** The pool keeps every slice, and this socket is in order. */
    ghost predicate Valid()
      reads this, pool, pool.arrays
    {
      pool.Valid() && Ok(View(), pool.handed)
    }

    constructor (pool: Pool, connected: bool)
      requires pool.Valid()
      ensures Valid() && this.pool == pool && kernel == [] && accepted == [] && !abandoned && !destroyed
      ensures connecting == !connected && writable && readable == connected && writeQueue == [] && !destroyOnDrain
    {
      this.pool := pool;
      writeQueue, writeQueueEncoding, bufferSize := [], [], 0;
      connecting, writable, readable, watcher := !connected, true, connected, !connected;
      destroyOnDrain, destroyed := false, false;
      kernel, accepted, abandoned := [], [], false;
    }

    /** The kernel takes any part of what it is offered. */
    method WriteImpl(ghost b: Bytes, len: nat) returns (n: nat)
      requires len == |b|
      modifies this`kernel
      ensures n <= len && kernel == old(kernel) + b[..n]
    {
      var any: int := *;
      n := if 0 <= any < len then any else len;
      kernel := kernel + b[..n];
    }

    /** Something goes back to the front of the queue. */
    method Unshift(d: Data, e: Encoding)
      requires Sound(View(), pool.handed) && ChunkOk(Chunk(d), pool.handed) && !destroyed
      modifies this`writeQueue, this`writeQueueEncoding, this`bufferSize, this`watcher
      ensures Sound(View(), pool.handed) && writeQueue == [Chunk(d)] + old(writeQueue) && watcher
      ensures Left() == Encoded(d, e, pool.handed) + old(Left())
      ensures EndsInEof(writeQueue) <==> old(EndsInEof(writeQueue))
    {
      hide QueueOk, Pending, TotalLength, ChunkOk, Encoded, EndsInEof;
      PendingUnshift(writeQueue, writeQueueEncoding, d, e, pool.handed);
      bufferSize := bufferSize + Length(d);
      writeQueue := [Chunk(d)] + writeQueue;
      writeQueueEncoding := [e] + writeQueueEncoding;
      watcher := true;
    }

    /** Lines 405-441: as many characters as fit go to the pool, the others back to the queue. */
    method Stage(chars: Chars, e: Encoding) returns (queued: bool, len: nat, ghost b: Bytes)
      requires pool.Valid() && Sound(View(), pool.handed) && !destroyed
      modifies this`writeQueue, this`writeQueueEncoding, this`bufferSize, this`watcher
      modifies pool`buffer, pool`used, if pool.buffer == null then {} else {pool.buffer}
      ensures pool.Valid() && Sound(View(), pool.handed)
      ensures pool.buffer != null && (pool.buffer == old(pool.buffer) || fresh(pool.buffer))
      ensures len == |b| && len <= pool.used && pool.buffer[pool.used - len..pool.used] == b
      ensures pool.Below(pool.used - len)
      ensures chars != [] ==> len > 0
      ensures b + Left() == EncodeText(e, chars) + old(Left())
      ensures queued ==> writeQueue != [] && watcher
      ensures !queued ==> View() == old(View())
      ensures queued ==> (pool.used - len) + |EncodeText(e, chars)| > POOL_SIZE
      ensures EndsInEof(writeQueue) <==> old(EndsInEof(writeQueue))
    {
      hide QueueOk, Pending, TotalLength, EncodeUnit, EncodeText, Fit, EndsInEof, Intact;
      var k: nat;
      k, len := pool.Put(chars, e);
      b := EncodeText(e, chars[..k]);
      queued := k != |chars|;
      EncodeAppend(e, chars[..k], chars[k..]);
      assert chars == chars[..k] + chars[k..];
      if queued {
        Unshift(Text(chars[k..]), e);
        Assoc(b, EncodeText(e, chars[k..]), old(Left()));
        EncodeAppend(e, chars[..k + 1], chars[k + 1..]);
        assert chars == chars[..k + 1] + chars[k + 1..];
      } else {
        assert chars[..k] == chars;
      }
    }

    /** Lines 443-491: the kernel takes a part; what it leaves becomes a slice at the front of the queue. */
    method Send(s: Slice, fromPool: bool, ghost b: Bytes) returns (sent: bool)
      requires pool.Valid() && Sound(View(), pool.handed) && !destroyed
      requires Intact(s, b) && (s.arr == pool.buffer ==> s.end <= pool.used)
      requires fromPool ==> s.arr == pool.buffer && s.end == pool.used && pool.Below(s.start)
      modifies this`writeQueue, this`writeQueueEncoding, this`bufferSize, this`watcher, this`kernel
      modifies pool`used, pool`handed, pool`arrays
      ensures pool.Valid() && Sound(View(), pool.handed) && Grows(old(pool.handed), pool.handed)
      ensures kernel + Left() == old(kernel) + (b + old(Left()))
      ensures sent ==> writeQueue == old(writeQueue) && writeQueueEncoding == old(writeQueueEncoding)
      ensures sent ==> watcher == old(watcher)
      ensures !sent ==> writeQueue != [] && watcher
      ensures pool.used == old(pool.used) - if sent && fromPool then |b| else 0
      ensures EndsInEof(writeQueue) <==> old(EndsInEof(writeQueue))
    {
      hide QueueOk, Pending, TotalLength, EndsInEof;
      var len := s.end - s.start;
      var n := WriteImpl(b, len);
      Regroup(old(kernel), b, n, old(Left()));
      sent := n == len;
      if sent {
        if fromPool { pool.GiveBack(len); }
        assert b[n..] == [] && b[..n] == b;
      } else {
        var leftOver := Slice(s.arr, s.start + n, s.end);
        assert s.arr[leftOver.start..leftOver.end] == b[n..];
        pool.Adopt(leftOver);
        PendingGrows(writeQueue, writeQueueEncoding, old(pool.handed), pool.handed);
        Unshift(Buffer(leftOver), Default);
      }
    }

    /**
     * `_writeOut` on a writable socket: nothing is lost, doubled or reordered, wherever the kernel and the pool
     * cut.
     */
    method WriteOut(d: Data, e: Encoding) returns (flushed: bool)
      requires pool.Valid() && Sound(View(), pool.handed) && ChunkOk(Chunk(d), pool.handed) && !destroyed
      modifies this`writeQueue, this`writeQueueEncoding, this`bufferSize, this`watcher, this`kernel
      modifies pool, if pool.buffer == null then {} else {pool.buffer}
      ensures pool.Valid() && Sound(View(), pool.handed) && Grows(old(pool.handed), pool.handed)
      ensures pool.buffer == old(pool.buffer) || fresh(pool.buffer)
      ensures kernel + Left() == old(kernel + (Encoded(d, e, pool.handed) + Left()))
      ensures flushed ==> writeQueue == old(writeQueue) && writeQueueEncoding == old(writeQueueEncoding)
      ensures flushed ==> watcher == old(watcher)
      ensures !flushed ==> writeQueue != [] && watcher
      ensures EndsInEof(writeQueue) <==> old(EndsInEof(writeQueue))
    {
      hide Sound, Pending, EncodeText, EndsInEof;
      match d
      case Buffer(slice) =>
        flushed := Send(slice, false, pool.handed[slice]);
      case Text(chars) =>
        var queued, len, b := Stage(chars, e);
        var sent := Send(Slice(pool.buffer, pool.used - len, pool.used), true, b);
        flushed := sent && !queued;
    }

    /** Lines 337-363: data joins the queue, added to the last text when the encodings agree. */
    method Enqueue(d: Data, e: Encoding)
      requires Sound(View(), pool.handed) && Conserved(View(), pool.handed) && ChunkOk(Chunk(d), pool.handed)
      requires !EndsInEof(writeQueue)
      modifies this`writeQueue, this`writeQueueEncoding, this`bufferSize, this`accepted
      ensures Sound(View(), pool.handed) && Conserved(View(), pool.handed) && writeQueue != [] && !EndsInEof(writeQueue)
      ensures accepted == old(accepted) + Encoded(d, e, pool.handed)
    {
      hide QueueOk, Pending, TotalLength, EndsInEof;
      var last := |writeQueue| - 1;
      accepted := accepted + Encoded(d, e, pool.handed);
      Assoc(kernel, Left(), Encoded(d, e, pool.handed));
      LastChunk(writeQueue, writeQueueEncoding, pool.handed);
      if d.Text? && writeQueue != [] && writeQueue[last].data.Text? && writeQueueEncoding[last] == e {
        PendingExtend(writeQueue, writeQueueEncoding, d.chars, pool.handed);
        bufferSize := bufferSize + Length(d);
        writeQueue := writeQueue[last := Chunk(Text(writeQueue[last].data.chars + d.chars))];
      } else {
        PendingAppend(writeQueue, writeQueueEncoding, d, e, pool.handed);
        QueueAppend(writeQueue, writeQueueEncoding, d, e, pool.handed);
        bufferSize := bufferSize + Length(d);
        writeQueue := writeQueue + [Chunk(d)];
        writeQueueEncoding := writeQueueEncoding + [e];
      }
    }

    /** What every call keeps: the socket and the pool in order, and every slice ever handed out. */
    twostate predicate Kept()
      reads this, pool, pool.arrays
    {
      Valid() && Grows(old(pool.handed), pool.handed) && (pool.buffer == old(pool.buffer) || fresh(pool.buffer))
    }

    /** Nothing has begun to close the sending side. */
    predicate Open()
      reads this
    {
      writable && !EndsInEof(writeQueue) && !destroyOnDrain
    }

    /** `write`: throws after the end or on a closed socket; otherwise the data joins what was accepted. */
    method Write(d: Data, e: Encoding) returns (r: Answer)
      requires Valid() && ChunkOk(Chunk(d), pool.handed)
      modifies this`writeQueue, this`writeQueueEncoding, this`bufferSize, this`watcher, this`kernel, this`accepted
      modifies pool, if pool.buffer == null then {} else {pool.buffer}
      ensures Kept()
      ensures r.Threw? <==> old(EndsInEof(writeQueue) || !(writable || connecting))
      ensures r.Threw? ==> View() == old(View())
      ensures r.Flushed? ==> accepted == old(accepted) + old(Encoded(d, e, pool.handed)) && !EndsInEof(writeQueue)
      ensures r.Flushed? ==> (r.all <==> writeQueue == [])
    {
      hide QueueOk, Pending, TotalLength, Encoded, ChunkOk;
      if connecting || writeQueue != [] {
        if EndsInEof(writeQueue) { return Threw; }
        Enqueue(d, e);
        return Flushed(false);
      }
      if !writable { return Threw; }
      assert Left() == [] by { PendingEmpty(writeQueueEncoding, pool.handed); }
      accepted := accepted + Encoded(d, e, pool.handed);
      var all := WriteOut(d, e);
      return Flushed(all);
    }

    /** `destroy`: the socket is closed at once; what is queued is abandoned. */
    method Destroy()
      requires pool.Valid() && Conserved(View(), pool.handed)
      modifies this
      ensures Valid() && destroyed && writeQueue == [] && destroyOnDrain == old(destroyOnDrain)
      ensures !readable && !writable
      ensures accepted == old(accepted) && kernel == old(kernel) && connecting == old(connecting)
      ensures abandoned <==> old(abandoned) || old(writeQueue) != []
    {
      hide Pool.Valid, Ok, Conserved, Sound, Awake;
      DestroyedOk(View(), pool.handed);
      abandoned := abandoned || writeQueue != [];
      writeQueue, writeQueueEncoding, bufferSize := [], [], 0;
      readable, writable, watcher, destroyed := false, false, false, true;
      assert pool.Valid();
    }

    /** `_shutdown`: the sending side closes; if the other side has closed too, so does the socket. */
    method Shutdown()
      requires pool.Valid() && Sound(View(), pool.handed) && Conserved(View(), pool.handed) && writeQueue == []
      requires writable && !connecting
      modifies this
      ensures Valid() && !writable && writeQueue == [] && connecting == old(connecting)
      ensures destroyOnDrain == old(destroyOnDrain)
      ensures accepted == old(accepted) && kernel == old(kernel) && abandoned == old(abandoned)
      ensures (destroyed <==> !old(readable)) && readable == old(readable)
    {
      writable := false;
      if !readable { Destroy(); }
    }

    /** Nothing is pending that could not be sent now. */
    ghost predicate Sendable()
      reads this, pool, pool.arrays
    {
      pool.Valid() && Sound(View(), pool.handed) && Conserved(View(), pool.handed) && !connecting
          && (writeQueue != [] ==> writable)
    }

    /** Lines 508-525: one round of `flush`, on a chunk of data. */
    method FlushFirst() returns (flushed: bool)
      requires Sendable() && writeQueue != [] && writeQueue[0].Chunk?
      modifies this`writeQueue, this`writeQueueEncoding, this`bufferSize, this`watcher, this`kernel
      modifies pool, if pool.buffer == null then {} else {pool.buffer}
      ensures Sendable() && Grows(old(pool.handed), pool.handed)
      ensures pool.buffer == old(pool.buffer) || fresh(pool.buffer)
      ensures EndsInEof(writeQueue) <==> old(EndsInEof(writeQueue))
      ensures if flushed then writeQueue == old(writeQueue)[1..] else writeQueue != [] && watcher
    {
      hide Pool.Valid, QueueOk, Pending, TotalLength, EndsInEof, Encoded, ChunkOk;
      PendingShift(writeQueue, writeQueueEncoding, pool.handed);
      var data, encoding := writeQueue[0].data, writeQueueEncoding[0];
      writeQueue, writeQueueEncoding := writeQueue[1..], writeQueueEncoding[1..];
      bufferSize := bufferSize - Length(data);
      flushed := WriteOut(data, encoding);
    }

    /** `flush`: true exactly when nothing is left; an end-of-file mark then has closed the sending side. */
    method Flush() returns (done: bool)
      requires Sendable()
      modifies this, pool, if pool.buffer == null then {} else {pool.buffer}
      ensures Kept() && (done <==> writeQueue == [])
      ensures accepted == old(accepted) && abandoned == old(abandoned) && !connecting
      ensures destroyOnDrain == old(destroyOnDrain)
      ensures !done ==> writable && (EndsInEof(writeQueue) <==> old(EndsInEof(writeQueue)))
      ensures done ==> writable == old(writable && !EndsInEof(writeQueue))
      ensures destroyed <==> old(destroyed) || (done && old(EndsInEof(writeQueue) && !readable))
      ensures readable == old(readable) && (old(writeQueue == [] || writeQueue[0].EndOfFile?) ==> done)
      ensures done && !old(EndsInEof(writeQueue)) ==> !watcher
    {
      hide Pool.Valid, QueueOk, Pending, TotalLength, EndsInEof, Encoded, ChunkOk;
      EmptyQueue(pool.handed);
      while writeQueue != []
        invariant Sendable() && Grows(old(pool.handed), pool.handed)
        invariant pool.buffer == old(pool.buffer) || fresh(pool.buffer)
        invariant accepted == old(accepted) && abandoned == old(abandoned) && destroyOnDrain == old(destroyOnDrain)
        invariant old(writeQueue == [] || writeQueue[0].EndOfFile?) ==> writeQueue == old(writeQueue)
        invariant writable == old(writable) && readable == old(readable) && destroyed == old(destroyed)
        invariant EndsInEof(writeQueue) <==> old(EndsInEof(writeQueue))
        decreases |writeQueue|
      {
        if writeQueue[0].EndOfFile? {
          EofAlone(writeQueue, writeQueueEncoding, pool.handed);
          EmptyQueue(pool.handed);
          writeQueue := [];
          Shutdown();
          return true;
        }
        var flushed := FlushFirst();
        if !flushed { return false; }
      }
      watcher := false;
      done := true;
    }

    /** Lines 871-874: the end-of-file mark is queued and, on a connected socket, everything is flushed. */
    method Close()
      requires Valid() && writable && !EndsInEof(writeQueue)
      modifies this, pool, if pool.buffer == null then {} else {pool.buffer}
      ensures Kept() && accepted == old(accepted) && abandoned == old(abandoned)
      ensures destroyOnDrain == old(destroyOnDrain)
      ensures connecting == old(connecting) && (writable ==> EndsInEof(writeQueue)) && readable == old(readable)
      ensures old(writeQueue == [] && !connecting) ==> !writable && (destroyed <==> !readable)
    {
      hide Pool.Valid, QueueOk, Pending, TotalLength, EndsInEof;
      PendingEof(writeQueue, writeQueueEncoding, pool.handed);
      writeQueue := writeQueue + [EndOfFile];
      if !connecting {
        var _ := Flush();
      }
    }

    /** `end`: whatever is given is sent first; then, once everything is out, the sending side closes. */
    method End(d: Data, e: Encoding)
      requires Valid() && ChunkOk(Chunk(d), pool.handed)
      modifies this, pool, if pool.buffer == null then {} else {pool.buffer}
      ensures Kept() && abandoned == old(abandoned) && destroyOnDrain == old(destroyOnDrain)
      ensures old(writable && !EndsInEof(writeQueue)) ==> accepted == old(accepted) + old(Encoded(d, e, pool.handed))
      ensures old(writable && !EndsInEof(writeQueue)) ==> (writable ==> EndsInEof(writeQueue))
      ensures !old(writable && !EndsInEof(writeQueue)) ==> View() == old(View())
      ensures readable == old(readable) && connecting == old(connecting)
      ensures old(writable && writeQueue == [] && !connecting) && d == Text([]) ==>
                !writable && (destroyed <==> !readable)
    {
      hide Pool.Valid, QueueOk, Pending, TotalLength, EndsInEof, Encoded, EncodeText;
      EmptyQueue(pool.handed);
      if writable && !EndsInEof(writeQueue) {
        if d != Text([]) {
          var _ := Write(d, e);
        } else {
          EncodeNothing(e, pool.handed);
        }
        Close();
      }
    }

    /** `_onWritable`: a socket that was to be destroyed when drained loses nothing by it. */
    method OnWritable()
      requires Valid() && watcher && !connecting
      modifies this, pool, if pool.buffer == null then {} else {pool.buffer}
      ensures Kept() && accepted == old(accepted) && abandoned == old(abandoned) && !connecting
      ensures old(destroyOnDrain) && writeQueue == [] ==> destroyed
      ensures destroyed ==> old(destroyed || destroyOnDrain || (EndsInEof(writeQueue) && !readable))
      ensures (old(Open()) <==> Open()) && (!destroyed ==> readable == old(readable))
      ensures old(writeQueue == [] || writeQueue[0].EndOfFile?) ==> writeQueue == []
      ensures writeQueue == [] && old(writable) ==> writable == old(!EndsInEof(writeQueue) && !destroyOnDrain)
      ensures old(writeQueue != [] && writeQueue[0].EndOfFile?) ==> !writable
    {
      hide Pool.Valid, QueueOk, Pending, TotalLength, EndsInEof;
      EmptyQueue(pool.handed);
      if writeQueue != [] && writeQueue[0].EndOfFile? { EofAlone(writeQueue, writeQueueEncoding, pool.handed); }
      var done := Flush();
      if done && destroyOnDrain { Destroy(); }
    }

    /** `_onConnect`, when the connection was made: what was written meanwhile goes out. */
    method OnConnect()
      requires Valid() && watcher && connecting
      modifies this, pool, if pool.buffer == null then {} else {pool.buffer}
      ensures Kept() && accepted == old(accepted) && abandoned == old(abandoned) && !connecting
      ensures (old(Open()) <==> Open()) && (readable || destroyed)
      ensures old(writeQueue != [] && writeQueue[0].EndOfFile?) ==> !writable
    {
      connecting := false;
      readable := true;
      if writeQueue != [] { OnWritable(); }
    }

    /** `destroySoon`: destroyed now or when drained, and nothing is dropped. */
    method DestroySoon()
      requires Valid() && !connecting
      modifies this, pool, if pool.buffer == null then {} else {pool.buffer}
      ensures Kept() && accepted == old(accepted) && abandoned == old(abandoned)
      ensures destroyed || (destroyOnDrain && watcher && readable == old(readable))
      ensures !Open() && !connecting
    {
      hide Pool.Valid, QueueOk, Pending, TotalLength, EndsInEof;
      var done := Flush();
      if done { Destroy(); } else { destroyOnDrain := true; }
    }

    /** `_onReadable`: bytes arrive in the pool, or the other side has closed. */
    method OnReadable(arriving: Bytes, allowHalfOpen: bool) returns (got: seq<Slice>)
      requires Valid() && !connecting && !destroyed
      modifies this, pool, if pool.buffer == null then {} else {pool.buffer}
      ensures Kept() && accepted == old(accepted) && abandoned == old(abandoned)
      ensures arriving == [] <==> got == []
      ensures forall s :: s in got ==>
                && s in pool.handed && 0 < |pool.handed[s]| <= |arriving|
                && pool.handed[s] == arriving[..|pool.handed[s]|]
      ensures arriving != [] || (allowHalfOpen && old(writable)) ==>
                View() == old(View()) && destroyOnDrain == old(destroyOnDrain)
      ensures readable == (old(readable) && arriving != [])
      ensures arriving == [] && !old(writable) ==> destroyed
      ensures arriving == [] && !allowHalfOpen ==>
                && (writable ==> EndsInEof(writeQueue)) && (old(writeQueue) == [] ==> destroyed)
                && destroyOnDrain == old(destroyOnDrain)
      ensures !connecting && (Open() ==> old(Open()) && (arriving != [] || allowHalfOpen))
    {
      hide Pool.Valid, QueueOk, Pending, TotalLength, EndsInEof, EncodeText;
      got := [];
      if arriving == [] {
        readable := false;
        if !writable { Destroy(); }
        EncodeNothing(Default, pool.handed);
        if !allowHalfOpen { End(Text([]), Default); }
      } else {
        var slice, count := pool.Receive(arriving);
        PendingGrows(writeQueue, writeQueueEncoding, old(pool.handed), pool.handed);
        got := [slice];
      }
    }
  }

  // ------------------------------------------------------------------ whole runs

  /** What may happen to a socket, in any order. */
  datatype Event =
    | Writes(d: Data, e: Encoding)
    | Ends(d: Data, e: Encoding)
    | Writability
    | Arrival(bytes: Bytes, allowHalfOpen: bool)
    | DestroyedSoon
    | Destroyed

  /** All sockets are in order and share the pool. */
  ghost predicate AllOk(pool: Pool, sockets: seq<Socket>)
    reads pool, pool.arrays, set s | s in sockets
  {
    && pool.Valid()
    && (forall i :: 0 <= i < |sockets| ==> sockets[i].pool == pool && Ok(sockets[i].View(), pool.handed))
    && forall i, j :: 0 <= i < j < |sockets| ==> sockets[i] != sockets[j]
  }

  /** Data that the program may write at any time: text, and what it was given. */
  ghost predicate Available(d: Data, handed: Handed) {
    d.Buffer? ==> d.slice in handed
  }

  /** The program writes a buffer of its own: one outside the pool, or a part of the pool it was given. */
  method Offer(pool: Pool, d: Data) returns (offered: bool)
    requires pool.Valid()
    modifies pool`handed, pool`arrays
    ensures pool.Valid() && Grows(old(pool.handed), pool.handed)
    ensures offered ==> ChunkOk(Chunk(d), pool.handed)
    ensures old(Available(d, pool.handed)) ==> offered
  {
    if d.Text? { return true; }
    var s := d.slice;
    assert s in pool.handed ==> Intact(s, pool.handed[s]);
    offered := s.start <= s.end <= s.arr.Length && (s.arr == pool.buffer ==> s.end <= pool.used);
    if offered { pool.Adopt(s); }
  }

  predicate Speaks(ev: Event) {
    ev.Writes? || ev.Ends?
  }

  /** After these a socket need not take data any more. */
  predicate Shuts(ev: Event) {
    ev.Ends? || ev.Destroyed? || ev.DestroyedSoon? || (ev.Arrival? && ev.bytes == [])
  }

  /** After these it does not; the last two need a connection. */
  predicate MustShut(ev: Event, took: Option<Bytes>, connected: bool) {
    || (ev.Ends? && took.Some?) || ev.Destroyed?
    || (connected && (ev.DestroyedSoon? || (ev.Arrival? && ev.bytes == [] && !ev.allowHalfOpen)))
  }

  /** What was taken of an event's data: all of it or nothing. */
  ghost predicate TakenOf(took: Option<Bytes>, ev: Event, handed: Handed) {
    took.Some? ==> Speaks(ev) && ChunkOk(Chunk(ev.d), handed) && took.value == Encoded(ev.d, ev.e, handed)
  }

  function BytesOf(took: Option<Bytes>): Bytes {
    if took.Some? then took.value else []
  }

  /** One event at one socket; an event that cannot occur in its state does nothing. */
  method Handle(s: Socket, ev: Event) returns (ghost took: Option<Bytes>)
    requires s.Valid()
    modifies s, s.pool, if s.pool.buffer == null then {} else {s.pool.buffer}
    ensures s.Kept() && (s.abandoned ==> old(s.abandoned) || ev.Destroyed?)
    ensures TakenOf(took, ev, s.pool.handed) && s.accepted == old(s.accepted) + BytesOf(took)
    ensures Speaks(ev) && old(s.Open() && Available(ev.d, s.pool.handed)) ==> took.Some?
    ensures old(s.Open()) && !Shuts(ev) ==> s.Open()
    ensures (s.Open() ==> old(s.Open())) && (MustShut(ev, took, !old(s.connecting)) ==> !s.Open())
    ensures (s.connecting ==> old(s.connecting)) && (ev.Writability? && s.connecting ==> !s.Open())
    ensures ev.Writability? && old(s.watcher && s.writeQueue != [] && s.writeQueue[0].EndOfFile?) ==> !s.writable
  {
    hide Sound, Awake, Conserved, EndsInEof, Intact;
    took := None;
    ClosedAlready(s.View(), s.pool.handed);
    match ev
    case Writes(d, e) => took := HandleWrite(s, d, e);
    case Ends(d, e) => took := HandleEnd(s, d, e);
    case Writability =>
      if s.watcher {
        if s.connecting { s.OnConnect(); } else { s.OnWritable(); }
      }
    case Arrival(bytes, half) => if !s.connecting && !s.destroyed { var _ := s.OnReadable(bytes, half); }
    case DestroyedSoon => if !s.connecting { s.DestroySoon(); }
    case Destroyed => s.Destroy();
  }

  lemma ClosedAlready(v: State, handed: Handed)
    requires Ok(v, handed)
    ensures (v.connecting && !v.watcher) || v.destroyed ==> !v.writable
  {
  }

  method HandleWrite(s: Socket, d: Data, e: Encoding) returns (ghost took: Option<Bytes>)
    requires s.Valid()
    modifies s, s.pool, if s.pool.buffer == null then {} else {s.pool.buffer}
    ensures s.Kept() && s.abandoned == old(s.abandoned)
    ensures TakenOf(took, Writes(d, e), s.pool.handed) && s.accepted == old(s.accepted) + BytesOf(took)
    ensures old(s.Open() && Available(d, s.pool.handed)) ==> took.Some?
    ensures (old(s.Open()) <==> s.Open()) && s.connecting == old(s.connecting)
  {
    hide Sound, Awake, Conserved, EndsInEof, Intact, EncodeText;
    took := None;
    var offered := Offer(s.pool, d);
    OkGrows(s.View(), old(s.pool.handed), s.pool.handed);
    if offered {
      ghost var b := Encoded(d, e, s.pool.handed);
      var r := s.Write(d, e);
      if r.Flushed? { took := Some(b); }
    }
  }

  method HandleEnd(s: Socket, d: Data, e: Encoding) returns (ghost took: Option<Bytes>)
    requires s.Valid()
    modifies s, s.pool, if s.pool.buffer == null then {} else {s.pool.buffer}
    ensures s.Kept() && s.abandoned == old(s.abandoned)
    ensures TakenOf(took, Ends(d, e), s.pool.handed) && s.accepted == old(s.accepted) + BytesOf(took)
    ensures old(s.Open() && Available(d, s.pool.handed)) ==> took.Some?
    ensures (s.Open() ==> old(s.Open())) && (took.Some? ==> !s.Open()) && s.connecting == old(s.connecting)
  {
    hide Sound, Awake, Conserved, EndsInEof, Intact, EncodeText;
    took := None;
    var offered := Offer(s.pool, d);
    OkGrows(s.View(), old(s.pool.handed), s.pool.handed);
    if offered {
      if s.writable && !EndsInEof(s.writeQueue) { took := Some(Encoded(d, e, s.pool.handed)); }
      s.End(d, e);
    }
  }

  /** What socket `i` was given, event by event. */
  ghost function Gathered(events: seq<(nat, Event)>, took: seq<Option<Bytes>>, i: nat): Bytes
    requires |took| <= |events|
  {
    if took == [] then []
    else
      var n := |took| - 1;
      Gathered(events, took[..n], i) + if events[n].0 == i then BytesOf(took[n]) else []
  }

  /** Before event `n` nothing has begun to close socket `i`. */
  ghost predicate StillOpen(events: seq<(nat, Event)>, n: nat, i: nat)
    requires n <= |events|
  {
    forall m :: 0 <= m < n && events[m].0 == i ==> !Shuts(events[m].1)
  }

  /** Each entry is the data of its event. */
  ghost predicate TakenOk(events: seq<(nat, Event)>, took: seq<Option<Bytes>>, handed: Handed) {
    |took| <= |events| && forall n :: 0 <= n < |took| ==> TakenOf(took[n], events[n].1, handed)
  }

  lemma TakenGrows(events: seq<(nat, Event)>, took: seq<Option<Bytes>>, a: Handed, b: Handed)
    requires TakenOk(events, took, a) && Grows(a, b)
    ensures TakenOk(events, took, b)
  {
    hide EncodeText;
    forall n | 0 <= n < |took|
      ensures TakenOf(took[n], events[n].1, b)
    {
      assert TakenOf(took[n], events[n].1, a);
    }
  }

  /** Nothing is refused that comes before anything begins to close the socket. */
  ghost predicate TookAll(events: seq<(nat, Event)>, took: seq<Option<Bytes>>, open: set<nat>, handed: Handed)
    requires |took| <= |events|
  {
    forall n :: 0 <= n < |took| && Due(events, n, open, handed) ==> took[n].Some?
  }

  ghost predicate Due(events: seq<(nat, Event)>, n: nat, open: set<nat>, handed: Handed)
    requires n < |events|
  {
    var (i, ev) := events[n];
    i in open && Speaks(ev) && Available(ev.d, handed) && StillOpen(events, n, i)
  }

  /** One more event is dealt with. */
  lemma OneMore(
      events: seq<(nat, Event)>, took: seq<Option<Bytes>>, one: Option<Bytes>, open: set<nat>,
      was: Handed, a: Handed, b: Handed)
    requires |took| < |events| && TakenOk(events, took, a) && Grows(a, b) && TakenOf(one, events[|took|].1, b)
    requires TookAll(events, took, open, was) && (Due(events, |took|, open, was) ==> one.Some?)
    ensures TakenOk(events, took + [one], b) && TookAll(events, took + [one], open, was)
    ensures forall i :: Gathered(events, took + [one], i)
                     == Gathered(events, took, i) + if events[|took|].0 == i then BytesOf(one) else []
  {
    hide TakenOf, Due;
    TakenGrows(events, took, a, b);
    assert (took + [one])[..|took|] == took;
  }

  /** What a run says about a socket. */
  datatype Account = Account(accepted: Bytes, abandoned: bool, open: bool, connecting: bool)

  ghost function AccountsOf(sockets: seq<Socket>): (r: seq<Account>)
    reads set s | s in sockets
    ensures |r| == |sockets|
    ensures forall i :: 0 <= i < |sockets| ==>
              r[i] == Account(sockets[i].accepted, sockets[i].abandoned, sockets[i].Open(), sockets[i].connecting)
  {
    seq(|sockets|, i requires 0 <= i < |sockets| reads set s | s in sockets =>
      Account(sockets[i].accepted, sockets[i].abandoned, sockets[i].Open(), sockets[i].connecting))
  }

  ghost function OpenIn(accounts: seq<Account>): set<nat> {
    set i: nat | i < |accounts| && accounts[i].open
  }

  /** From the accounts at the start to those after the events dealt with so far. */
  ghost predicate Progress(
      start: seq<Account>, now: seq<Account>, events: seq<(nat, Event)>, took: seq<Option<Bytes>>, was: Handed,
      handed: Handed)
  {
    && |now| == |start| && TakenOk(events, took, handed) && TookAll(events, took, OpenIn(start), was)
    && forall i :: 0 <= i < |now| ==> Accounted(start[i], now[i], events, took, i)
  }

  ghost predicate Accounted(
      a: Account, b: Account, events: seq<(nat, Event)>, took: seq<Option<Bytes>>, i: nat)
    requires |took| <= |events|
  {
    && b.accepted == a.accepted + Gathered(events, took, i)
    && (!a.abandoned && (i, Destroyed) !in events ==> !b.abandoned)
    && (a.open && StillOpen(events, |took|, i) ==> b.open)
    && ((!a.open || BegunToShut(a, events, took, i)) ==> !b.open)
    && (Connected(a, events, |took|, i) ==> !b.connecting || !b.open)
  }

  /** Socket `i` was connected before event `n`, unless it was closed. */
  ghost predicate Connected(a: Account, events: seq<(nat, Event)>, n: nat, i: nat)
    requires n <= |events|
  {
    !a.connecting || (i, Writability) in events[..n]
  }

  /** Its own end, or the other side's, has come to socket `i`. */
  ghost predicate BegunToShut(a: Account, events: seq<(nat, Event)>, took: seq<Option<Bytes>>, i: nat)
    requires |took| <= |events|
  {
    exists n :: 0 <= n < |took| && events[n].0 == i && MustShut(events[n].1, took[n], Connected(a, events, n, i))
  }

  /** What one event may do to the account of its socket. */
  ghost predicate Enters(a: Account, b: Account, ev: Event, took: Option<Bytes>) {
    && b.accepted == a.accepted + BytesOf(took)
    && (b.abandoned ==> a.abandoned || ev.Destroyed?)
    && (a.open && !Shuts(ev) ==> b.open)
    && (b.open ==> a.open && !MustShut(ev, took, !a.connecting))
    && (b.connecting ==> a.connecting) && (ev.Writability? && b.connecting ==> !b.open)
  }

  lemma ProgressStarts(start: seq<Account>, events: seq<(nat, Event)>, handed: Handed)
    ensures Progress(start, start, events, [], handed, handed)
  {
  }

  /** The account of the socket concerned moves on, the others stay. */
  lemma ProgressOne(
      start: seq<Account>, now: seq<Account>, next: seq<Account>, events: seq<(nat, Event)>,
      took: seq<Option<Bytes>>, one: Option<Bytes>, was: Handed, a: Handed, b: Handed)
    requires Progress(start, now, events, took, was, a) && |took| < |events| && Grows(a, b) && |next| == |now|
    requires var (i, ev) := events[|took|];
             && TakenOf(one, ev, b) && (i >= |now| ==> one.None?)
             && (i < |now| && now[i].open && Speaks(ev) && Available(ev.d, was) ==> one.Some?)
             && (i < |now| ==> Enters(now[i], next[i], ev, one))
             && forall j :: 0 <= j < |now| && j != i ==> next[j] == now[j]
    ensures Progress(start, next, events, took + [one], was, b)
  {
    hide TakenOf, TakenOk, TookAll, Gathered, BytesOf, StillOpen;
    var (i, ev) := events[|took|];
    if i < |now| { assert Accounted(start[i], now[i], events, took, i); }
    OneMore(events, took, one, OpenIn(start), was, a, b);
    forall j | 0 <= j < |now|
      ensures Accounted(start[j], next[j], events, took + [one], j)
    {
      assert Accounted(start[j], now[j], events, took, j);
      AccountedOne(start[j], now[j], next[j], events, took, one, j);
    }
  }

  lemma AccountedOne(
      a: Account, b: Account, c: Account, events: seq<(nat, Event)>, took: seq<Option<Bytes>>, one: Option<Bytes>,
      j: nat)
    requires |took| < |events| && Accounted(a, b, events, took, j)
    requires if events[|took|].0 == j then Enters(b, c, events[|took|].1, one) else c == b
    requires Gathered(events, took + [one], j)
             == Gathered(events, took, j) + if events[|took|].0 == j then BytesOf(one) else []
    ensures Accounted(a, c, events, took + [one], j)
  {
    hide Gathered, BytesOf;
    assert events[|took|] in events;
    if events[|took|].0 == j {
      Assoc(a.accepted, Gathered(events, took, j), BytesOf(one));
      assert events[|took|] == (j, events[|took|].1);
    }
  }

  /**
   * Any events at any sockets sharing the pool. What each socket accepted is what it was given, in order, where
   * nothing is refused before the socket begins to close; every socket not destroyed outright has given the
   * kernel all it accepted but what it still queues; and every slice ever handed out keeps its bytes.
   */
  method Run(pool: Pool, sockets: seq<Socket>, events: seq<(nat, Event)>) returns (ghost took: seq<Option<Bytes>>)
    requires AllOk(pool, sockets)
    modifies pool, set s | s in sockets, if pool.buffer == null then {} else {pool.buffer}
    ensures AllOk(pool, sockets) && Grows(old(pool.handed), pool.handed) && |took| == |events|
    ensures Progress(old(AccountsOf(sockets)), AccountsOf(sockets), events, took, old(pool.handed), pool.handed)
    ensures forall i :: 0 <= i < |sockets| ==>
              sockets[i].accepted == old(sockets[i].accepted) + Gathered(events, took, i)
    ensures forall i :: 0 <= i < |sockets| && !old(sockets[i].abandoned) && (i, Destroyed) !in events ==>
              sockets[i].kernel + sockets[i].Left() == sockets[i].accepted
    ensures forall i :: 0 <= i < |sockets| && BegunToShut(old(AccountsOf(sockets))[i], events, took, i) ==>
              !sockets[i].Open()
  {
    hide Progress, Ok, TakenOf, BytesOf;
    took := [];
    ghost var start := AccountsOf(sockets);
    ProgressStarts(start, events, pool.handed);
    for n := 0 to |events|
      invariant AllOk(pool, sockets) && Grows(old(pool.handed), pool.handed)
      invariant pool.buffer == old(pool.buffer) || fresh(pool.buffer)
      invariant |took| == n && Progress(start, AccountsOf(sockets), events, took, old(pool.handed), pool.handed)
    {
      var (i, ev) := events[n];
      ghost var one, handed, now := None, pool.handed, AccountsOf(sockets);
      NoneTaken(ev, pool.handed);
      if i < |sockets| { one := HandleAt(pool, sockets, i, ev); }
      ProgressOne(start, now, AccountsOf(sockets), events, took, one, old(pool.handed), handed, pool.handed);
      took := took + [one];
    }
    forall i | 0 <= i < |sockets|
      ensures Conserved(sockets[i].View(), pool.handed)
      ensures Accounted(start[i], AccountsOf(sockets)[i], events, took, i)
    {
      OkConserves(sockets[i].View(), pool.handed);
      ProgressMeans(start, AccountsOf(sockets), events, took, old(pool.handed), pool.handed, i);
    }
  }

  lemma ProgressMeans(
      start: seq<Account>, now: seq<Account>, events: seq<(nat, Event)>, took: seq<Option<Bytes>>, was: Handed,
      handed: Handed, i: nat)
    requires Progress(start, now, events, took, was, handed) && i < |now|
    ensures |start| == |now| && |took| <= |events| && Accounted(start[i], now[i], events, took, i)
  {
  }

  lemma OkConserves(v: State, handed: Handed)
    requires Ok(v, handed)
    ensures Conserved(v, handed)
  {
  }

  lemma NoneTaken(ev: Event, handed: Handed)
    ensures TakenOf(None, ev, handed) && BytesOf(None) == []
  {
  }

  /** One socket moves; the others do not notice. */
  method HandleAt(pool: Pool, sockets: seq<Socket>, i: nat, ev: Event) returns (ghost took: Option<Bytes>)
    requires AllOk(pool, sockets) && i < |sockets|
    modifies pool, sockets[i], if pool.buffer == null then {} else {pool.buffer}
    ensures AllOk(pool, sockets) && Grows(old(pool.handed), pool.handed)
    ensures pool.buffer == old(pool.buffer) || fresh(pool.buffer)
    ensures TakenOf(took, ev, pool.handed)
    ensures var a, b := old(AccountsOf(sockets)), AccountsOf(sockets);
            && Enters(a[i], b[i], ev, took) && forall j :: 0 <= j < |sockets| && j != i ==> b[j] == a[j]
    ensures Speaks(ev) && old(sockets[i].Open() && Available(ev.d, pool.handed)) ==> took.Some?
  {
    hide Ok, TakenOf, BytesOf;
    took := Handle(sockets[i], ev);
    forall j | 0 <= j < |sockets|
      ensures Ok(sockets[j].View(), pool.handed)
    {
      if j != i { OkGrows(old(sockets[j].View()), old(pool.handed), pool.handed); }
    }
  }
}
