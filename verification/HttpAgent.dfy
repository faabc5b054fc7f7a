/** lib/http.js, the client's Agent: requests to one host wait in a queue for one of a bounded set of sockets. */
module HttpAgent {

  class Request {
    ghost const number: nat
    var queued: bool
    var connection: Socket?

    constructor (ghost number: nat)
      ensures this.number == number && !queued && connection == null
    {
      this.number := number;
      queued, connection := false, null;
    }
  }

  class Socket {
    var httpMessage: Request?
    var writable: bool
    var readable: bool
    var httpConnecting: bool

    constructor ()
      ensures httpMessage == null && httpConnecting && writable && !readable
    {
      httpMessage, writable, readable, httpConnecting := null, true, false, true;
    }

    /** Free, and open or about to be. */
    predicate Usable()
      reads this
    {
      httpMessage == null && ((writable && readable) || httpConnecting)
    }

    /** It carries nothing, and nothing can be sent on it. */
    predicate Shut()
      reads this
    {
      httpMessage == null && !writable && !httpConnecting
    }
  }

  /** In the order they were made. */
  ghost predicate Ordered(line: seq<Request>) {
    forall i, j :: 0 <= i < j < |line| ==> line[i].number < line[j].number
  }

  ghost predicate Distinct(sockets: seq<Socket>) {
    forall i, j :: 0 <= i < j < |sockets| ==> sockets[i] != sockets[j]
  }

  /** Every request made was dispatched, is queued or was withdrawn; the first two in the order they were made. */
  ghost predicate LineOk(dispatched: seq<Request>, queue: seq<Request>, withdrawn: set<Request>,
      requests: set<Request>, made: nat) {
    && Ordered(dispatched + queue)
    && (forall r :: r in requests ==> r in dispatched || r in queue || r in withdrawn)
    && (forall r :: r in dispatched ==> r in requests && r !in withdrawn)
    && (forall r :: r in queue ==> r in requests && r !in withdrawn)
    && withdrawn <= requests
    && (forall r :: r in requests ==> r.number < made)
    && |requests| == made
  }

  lemma LineCount(
      dispatched: seq<Request>, queue: seq<Request>, withdrawn: set<Request>, requests: set<Request>, made: nat)
    requires LineOk(dispatched, queue, withdrawn, requests, made)
    ensures |requests| == made
  {
  }

  /** One element has left the queue. */
  ghost predicate Lacks(before: seq<Request>, after: seq<Request>, r: Request) {
    exists i :: 0 <= i < |before| && before[i] == r && after == before[..i] + before[i + 1..]
  }

  ghost predicate SocketsOk(sockets: seq<Socket>, max: nat, all: set<Socket>) {
    |sockets| <= max && Distinct(sockets) && forall s :: s in sockets ==> s in all
  }

  /** The first in the queue is nowhere else, and may be dispatched next. */
  lemma FirstMoves(dispatched: seq<Request>, queue: seq<Request>, withdrawn: set<Request>,
      requests: set<Request>, made: nat)
    requires LineOk(dispatched, queue, withdrawn, requests, made) && queue != []
    ensures LineOk(dispatched + [queue[0]], queue[1..], withdrawn, requests, made)
    ensures queue[0] in requests && queue[0] !in dispatched && queue[0] !in queue[1..]
  {
    var line, n := dispatched + queue, |dispatched|;
    assert (dispatched + [queue[0]]) + queue[1..] == line;
    assert line[n] == queue[0];
    forall i | 0 <= i < n
      ensures dispatched[i] != queue[0]
    {
      assert line[i] == dispatched[i] && line[i].number < line[n].number;
    }
    forall j | 0 <= j < |queue| - 1
      ensures queue[1..][j] != queue[0]
    {
      assert line[n + 1 + j] == queue[1..][j] && line[n].number < line[n + 1 + j].number;
    }
  }

  class Agent {
    const maxSockets: nat
    var queue: seq<Request>
    var sockets: seq<Socket>
    ghost var made: nat
    ghost var dispatched: seq<Request>
    ghost var withdrawn: set<Request>
    ghost var parted: set<Request>
    ghost var closed: set<Socket>
    ghost var requests: set<Request>
    ghost var allSockets: set<Socket>
    var socketList: seq<Socket>

    ghost predicate Lined()
      reads this
    {
      && LineOk(dispatched, queue, withdrawn, requests, made) && SocketsOk(sockets, maxSockets, allSockets)
      && (set s | s in socketList) == allSockets
    }

    /** Queued requests have no socket; a socket and its message know each other. */
    ghost predicate Linked()
      reads this, requests, allSockets
    {
      && (forall r :: r in requests ==> (r in queue ==> r.queued) && (r in dispatched ==> !r.queued))
      && (forall r :: r in requests && r.queued ==> r.connection == null)
      && (forall r :: r in requests && r in dispatched && r.connection == null ==> r in parted)
      && (forall r :: r in parted ==> r in dispatched)
      && (forall r :: r in requests && r.connection != null ==>
            r in dispatched && r.connection in allSockets && r.connection.httpMessage == r)
      && (forall s :: s in allSockets && s.httpMessage != null ==>
            s.httpMessage in requests && s.httpMessage.connection == s)
      && closed <= allSockets && (forall s :: s in closed ==> s.Shut())
    }

    ghost predicate Valid()
      reads this, requests, allSockets
    {
      Lined() && Linked()
    }

    /** Nobody waits needlessly. */
    ghost predicate Busy()
      reads this, sockets
    {
      queue == [] || (|sockets| >= maxSockets && forall s :: s in sockets ==> !s.Usable())
    }

    constructor (maxSockets: nat)
      ensures Valid() && Busy() && this.maxSockets == maxSockets
      ensures queue == [] && sockets == [] && requests == {} && allSockets == {} && dispatched == [] && made == 0
      ensures withdrawn == {} && parted == {} && closed == {} && socketList == []
    {
      this.maxSockets := maxSockets;
      queue, sockets, made, dispatched, withdrawn, parted := [], [], 0, [], {}, {};
      requests, allSockets, closed, socketList := {}, {}, {}, [];
    }

    /** The first request leaves the queue for a socket. */
    method Assign(socket: Socket)
      requires Valid() && queue != [] && socket in sockets && socket.Usable()
      modifies this`queue, this`dispatched, queue[0], socket`httpMessage
      ensures Valid() && queue == old(queue)[1..] && dispatched == old(dispatched) + [old(queue)[0]]
      ensures socket.httpMessage == old(queue)[0] && old(queue)[0].connection == socket
      ensures dispatched + queue == old(dispatched + queue)
    {
      hide LineOk, SocketsOk;
      var first := queue[0];
      FirstMoves(dispatched, queue, withdrawn, requests, made);
      SocketKnown(sockets, maxSockets, allSockets, socket);
      assert first.queued;
      queue := queue[1..];
      first.queued := false;
      socket.httpMessage := first;
      first.connection := socket;
      dispatched := dispatched + [first];
      assert [first] + queue == old(queue);
    }

    /** Sockets are only added, connecting and with a message; neither they nor the requests lose each other. */
    twostate predicate SocketsKept()
      reads this, requests, allSockets
    {
      && old(dispatched) <= dispatched && old(sockets) <= sockets && old(allSockets) <= allSockets
      && old(socketList) <= socketList
      && parted == old(parted) && closed == old(closed)
      && (forall s :: s in allSockets && s !in old(allSockets) ==> fresh(s) && s in sockets)
      && (forall s :: s in allSockets && s in sockets && s !in old(sockets) ==>
            fresh(s) && s.httpConnecting && s.httpMessage != null)
      && (forall s :: s in old(allSockets) ==> SameState(s))
      && (forall s :: s in old(allSockets) && old(s.httpMessage) != null ==> s.httpMessage == old(s.httpMessage))
      && (forall r :: r in requests && r in parted ==> r.connection == old(r.connection))
      && (forall r :: r in requests && r in old(requests) && old(r.connection) != null ==>
            r.connection == old(r.connection))
    }

    /** A socket is as open as it was. */
    twostate predicate SameState(s: Socket)
      reads s
    {
      s.writable == old(s.writable) && s.readable == old(s.readable) && s.httpConnecting == old(s.httpConnecting)
    }

    /** What happens to one socket does not close or open the others, nor end their use. */
    twostate predicate OthersSame(socket: Socket)
      reads this, allSockets
    {
      && old(allSockets) <= allSockets
      && (forall s :: s in old(allSockets) && s != socket ==> SameState(s))
      && (forall s :: s in old(allSockets) && s != socket && old(s.httpMessage) != null ==>
            s.httpMessage == old(s.httpMessage))
    }

    /** Requests only move on. */
    twostate predicate Dispatches()
      reads this, requests, allSockets
    {
      && SocketsKept() && dispatched + queue == old(dispatched + queue)
      && withdrawn == old(withdrawn) && requests == old(requests) && made == old(made)
    }

    ghost predicate IsFirst(k: nat)
      reads this, sockets
    {
      k < |sockets| && sockets[k].Usable() && forall j :: 0 <= j < k ==> !sockets[j].Usable()
    }

    twostate predicate Grown()
      reads this
    {
      && old(socketList) <= socketList && (forall s :: s in allSockets ==> s in old(allSockets) || fresh(s))
      && (forall r :: r in requests ==> r in old(requests) || fresh(r))
    }

    /** The first socket that is free. */
    method Find() returns (i: nat)
      requires Valid()
      ensures i <= |sockets| && (i < |sockets| ==> IsFirst(i))
      ensures i == |sockets| ==> forall s :: s in sockets ==> !s.Usable()
    {
      i := 0;
      while i < |sockets|
        invariant i <= |sockets| && forall k :: 0 <= k < i ==> !sockets[k].Usable()
      {
        if sockets[i].Usable() { return; }
        i := i + 1;
      }
    }

    method AssignAt(i: nat)
      requires Valid() && queue != [] && i < |sockets| && sockets[i].Usable()
      modifies this`queue, this`dispatched, requests, allSockets
      ensures Valid() && Dispatches() && queue == old(queue)[1..] && sockets[i].httpMessage == old(queue)[0]
    {
      hide LineOk, SocketsOk;
      FirstMoves(dispatched, queue, withdrawn, requests, made);
      SocketKnown(sockets, maxSockets, allSockets, sockets[i]);
      Assign(sockets[i]);
    }

    /** `_cycle`: dispatches until the queue is empty, or every socket is taken and there may be no more of them. */
    method Cycle()
      requires Valid()
      modifies this, requests, allSockets
      ensures Valid() && Busy() && Dispatches()
      ensures forall k :: 0 <= k < |old(sockets)| && old(queue) != [] && old(IsFirst(k))
                ==> old(sockets)[k].httpMessage == old(queue)[0]
      decreases |queue|, if |sockets| < maxSockets then maxSockets - |sockets| else 0, 1
    {
      hide LineOk, SocketsOk, Linked;
      if queue == [] { return; }
      SocketsKnown(sockets, maxSockets, allSockets);
      var i := Find();
      if i < |sockets| {
        AssignAt(i);
        Cycle();
        return;
      }
      assert forall k :: 0 <= k < |sockets| ==> sockets[k] in sockets;
      if |sockets| < maxSockets { EstablishNewConnection(); }
    }

    /** `_establishNewConnection`: the new socket gets a request at once. */
    method EstablishNewConnection()
      requires Valid() && queue != [] && |sockets| < maxSockets && forall s :: s in sockets ==> !s.Usable()
      modifies this, requests, allSockets
      ensures Valid() && Busy() && Dispatches()
      ensures |sockets| > |old(sockets)| && fresh(sockets[|old(sockets)|])
      ensures sockets[|old(sockets)|].httpMessage == old(queue)[0]
      decreases |queue|, maxSockets - |sockets|, 0
    {
      hide LineOk, SocketsOk, Linked;
      var socket := AddSocket();
      assert IsFirst(|sockets| - 1) by {
        assert forall k :: 0 <= k < |sockets| - 1 ==> sockets[k] in old(sockets);
      }
      Cycle();
      assert socket.httpMessage != null;
    }

    /** Lines 1183-1195: one more socket, connecting. */
    method AddSocket() returns (socket: Socket)
      requires Valid() && |sockets| < maxSockets
      modifies this`sockets, this`allSockets, this`socketList
      ensures Valid() && fresh(socket) && sockets == old(sockets) + [socket] && socket.httpConnecting && socket.Usable()
      ensures allSockets == old(allSockets) + {socket} && socketList == old(socketList) + [socket]
    {
      hide LineOk, SocketsOk;
      socket := new Socket();
      SocketAdded(sockets, maxSockets, allSockets, socket);
      sockets := sockets + [socket];
      allSockets, socketList := allSockets + {socket}, socketList + [socket];
    }

    /** Lines 1161-1163: a new request at the end of the queue. */
    method Join() returns (req: Request)
      requires Valid()
      modifies this`queue, this`made, this`requests
      ensures Valid() && fresh(req) && requests == old(requests) + {req} && made == old(made) + 1
      ensures queue == old(queue) + [req]
    {
      hide LineOk, SocketsOk;
      req := new Request(made);
      RequestAdded(dispatched, queue, withdrawn, requests, made, req);
      Enqueue(req);
    }

    method Enqueue(req: Request)
      requires Valid() && req !in requests && req !in dispatched && req.connection == null
      requires LineOk(dispatched, queue + [req], withdrawn, requests + {req}, made + 1)
      modifies this`queue, this`made, this`requests, req`queued
      ensures Valid() && requests == old(requests) + {req} && made == old(made) + 1 && queue == old(queue) + [req]
    {
      hide LineOk, SocketsOk;
      queue := queue + [req];
      assert forall r :: r in queue ==> r in old(queue) || r == req;
      req.queued := true;
      made := made + 1;
      requests := requests + {req};
      assert forall r :: r in old(requests) ==>
          r != req && r.queued == old(r.queued) && r.connection == old(r.connection);
    }

    /** `appendMessage`: a new request joins the end of the queue. */
    method AppendMessage() returns (req: Request)
      requires Valid()
      modifies this, requests, allSockets
      ensures Valid() && Busy() && fresh(req) && requests == old(requests) + {req} && withdrawn == old(withdrawn)
      ensures dispatched + queue == old(dispatched + queue) + [req] && made == old(made) + 1
      ensures SocketsKept() && Grown()
    {
      hide LineOk, SocketsOk;
      req := Join();
      assert dispatched + (old(queue) + [req]) == (old(dispatched) + old(queue)) + [req];
      Cycle();
    }

    /** `_removeSocket`. */
    method RemoveSocket(socket: Socket)
      requires Valid()
      modifies this`sockets
      ensures Valid() && socket !in sockets
      ensures forall s :: s in old(sockets) <==> s in sockets || (s == socket && s in old(sockets))
    {
      hide LineOk;
      var i := IndexOf(sockets, socket);
      if i < |sockets| {
        SocketRemoved(sockets, maxSockets, allSockets, i);
        sockets := sockets[..i] + sockets[i + 1..];
      }
    }

    /** Lines 1183-1188: the connection is made. */
    method OnConnect(socket: Socket)
      requires Valid() && socket in allSockets && socket.httpConnecting
      modifies this, requests, allSockets
      ensures Valid() && Busy() && withdrawn == old(withdrawn) && dispatched + queue == old(dispatched + queue)
      ensures Grown() && made == old(made) && requests == old(requests) && !socket.httpConnecting
      ensures parted == old(parted) && closed == old(closed)
      ensures socket.writable && socket.readable && OthersSame(socket)
    {
      hide LineOk, SocketsOk;
      socket.httpConnecting := false;
      socket.writable, socket.readable := true, true;
      Cycle();
    }

    /** `socket.destroy`; also what the end of the server's side leads to. */
    method Destroy(socket: Socket)
      modifies socket`writable, socket`readable
      ensures !socket.writable && !socket.readable
      ensures old(Valid()) ==> Valid()
      ensures old(Busy()) ==> Busy()
    {
      socket.writable, socket.readable := false, false;
    }

    /** The first request is taken off the queue without having been sent. */
    method Withdraw() returns (req: Request)
      requires Valid() && queue != []
      modifies this`queue, this`withdrawn, queue[0]
      ensures Valid() && req == old(queue)[0] && queue == old(queue)[1..] && withdrawn == old(withdrawn) + {req}
      ensures !req.queued && req.connection == null
    {
      hide LineOk, SocketsOk;
      FirstDrops(dispatched, queue, withdrawn, requests, made, 0);
      req := queue[0];
      assert queue[..0] + queue[1..] == queue[1..];
      queue := queue[1..];
      req.queued := false;
      withdrawn := withdrawn + {req};
    }

    /**
     * The 'error' handler: the socket's request, or the next one, is told; the socket is dropped and the others
     * go on.
     */
    method OnError(socket: Socket) returns (told: Request?)
      requires Valid() && socket in allSockets
      modifies this, requests, allSockets
      ensures Valid() && Busy() && socket !in sockets
      ensures old(socket.httpMessage) != null ==> told == old(socket.httpMessage)
      ensures old(socket.httpMessage) == null ==> if old(queue) == [] then told == null else told == old(queue)[0]
      ensures withdrawn == old(withdrawn) +
                if old(socket.httpMessage == null && queue != []) then {old(queue)[0]} else {}
      ensures Grown()
      ensures made == old(made) && requests == old(requests)
      ensures parted == old(parted) && closed == old(closed)
      ensures !socket.writable && !socket.readable && OthersSame(socket)
    {
      hide LineOk, SocketsOk, Linked;
      told := WhomToTell(socket);
      Destroy(socket);
      RemoveSocket(socket);
      Cycle();
    }

    /** Lines 1210-1216: the request of the socket, else the first in the queue, which leaves it. */
    method WhomToTell(socket: Socket) returns (told: Request?)
      requires Valid() && socket in allSockets
      modifies this`queue, this`withdrawn, requests
      ensures Valid()
      ensures if socket.httpMessage != null then told == socket.httpMessage && queue == old(queue)
              else if old(queue) == [] then told == null && queue == []
              else told == old(queue)[0] && queue == old(queue)[1..]
      ensures withdrawn == old(withdrawn) +
                if socket.httpMessage == null && old(queue) != [] then {old(queue)[0]} else {}
    {
      hide LineOk, SocketsOk, Linked;
      told := socket.httpMessage;
      if told == null && queue != [] {
        FirstMoves(dispatched, queue, withdrawn, requests, made);
        told := Withdraw();
      }
    }

    /** The 'close' handler. */
    method OnClose(socket: Socket)
      requires Valid() && socket in allSockets
      modifies this, requests, allSockets
      ensures Valid() && Busy() && withdrawn == old(withdrawn) && dispatched + queue == old(dispatched + queue)
      ensures Grown() && socket !in sockets
      ensures made == old(made) && requests == old(requests)
      ensures parted == old(parted) && closed == old(closed)
      ensures !socket.writable && !socket.readable && OthersSame(socket)
    {
      hide LineOk, SocketsOk;
      Destroy(socket);
      RemoveSocket(socket);
      Cycle();
    }

    /**
     * The response is complete: the socket is free again or, without keep-alive, closed. `flushed` says whether
     * `destroySoon` could close it at once; if not, the assertion at line 1341 throws and nothing has changed.
     */
    method OnResponseEnd(socket: Socket, req: Request, shouldKeepAlive: bool, flushed: bool) returns (threw: bool)
      requires Valid() && socket in allSockets && req in requests
      requires socket.httpMessage == null || socket.httpMessage == req
      modifies this, requests, allSockets
      ensures threw <==> !shouldKeepAlive && old(socket.writable) && !flushed
      ensures Valid() && withdrawn == old(withdrawn) && dispatched + queue == old(dispatched + queue)
      ensures made == old(made) && requests == old(requests)
      ensures threw ==> Dispatches() && (old(Busy()) ==> Busy()) && queue == old(queue)
      ensures !threw ==> Busy() && (old(socket.httpMessage) == req ==> req.connection == null)
      ensures Grown() && OthersSame(socket)
      ensures parted == old(parted) || parted == old(parted) + {req}
      ensures (threw || shouldKeepAlive ==> SameState(socket)) && socket.httpConnecting == old(socket.httpConnecting)
      ensures !threw && !shouldKeepAlive ==> !socket.writable && (!old(socket.httpConnecting) ==> socket.Shut())
      ensures closed == old(closed) +
                if !threw && !shouldKeepAlive && !old(socket.httpConnecting) then {socket} else {}
    {
      hide LineOk, SocketsOk, Linked;
      if !shouldKeepAlive && socket.writable && !flushed { return true; }
      threw := false;
      FreeSocket(socket, req, shouldKeepAlive);
      Cycle();
      ClosedShut();
    }

    lemma ClosedShut()
      requires Valid()
      ensures forall s :: s in closed ==> s.Shut()
    {
      hide LineOk, SocketsOk;
    }

    /** Lines 1336-1352: without keep-alive the socket is closed; in any case it is given up by its request. */
    method FreeSocket(socket: Socket, req: Request, shouldKeepAlive: bool)
      requires Valid() && socket in allSockets && req in requests
      requires socket.httpMessage == null || socket.httpMessage == req
      modifies socket, req`connection, this`parted, this`closed
      ensures Valid() && socket.httpMessage == null && socket.httpConnecting == old(socket.httpConnecting)
      ensures if shouldKeepAlive then SameState(socket) else !socket.writable
      ensures parted == old(parted) || parted == old(parted) + {req}
      ensures old(socket.httpMessage) == req ==> parted == old(parted) + {req}
      ensures if old(socket.httpMessage) == req then req.connection == null else req.connection == old(req.connection)
      ensures closed == old(closed) + if !shouldKeepAlive && !socket.httpConnecting then {socket} else {}
    {
      hide LineOk, SocketsOk, Linked;
      if !shouldKeepAlive && socket.writable { Destroy(socket); }
      if socket.httpMessage != null { Detach(req, socket); }
      if !shouldKeepAlive && !socket.httpConnecting { NoteClosed(socket); }
    }

    ghost method NoteClosed(socket: Socket)
      requires Valid() && socket in allSockets && socket.Shut()
      modifies this`closed
      ensures Valid() && closed == old(closed) + {socket}
    {
      hide LineOk, SocketsOk;
      closed := closed + {socket};
    }

    /** `detachSocket`. */
    method Detach(req: Request, socket: Socket)
      requires Valid() && socket in allSockets && socket.httpMessage == req
      modifies socket`httpMessage, req`connection, this`parted
      ensures Valid() && socket.httpMessage == null && req.connection == null && parted == old(parted) + {req}
    {
      hide LineOk, SocketsOk;
      socket.httpMessage := null;
      req.connection := null;
      parted := parted + {req};
    }

    /**
     * `abort`: the request leaves the queue, or its socket is given up; aborted a second time after it was
     * queued, it takes the last one of the queue with it. Somebody is left waiting needlessly exactly if the
     * socket was still connecting.
     */
    method Abort(req: Request)
      requires Valid() && req in requests
      modifies this`queue, this`withdrawn, this`parted, req`connection, allSockets
      ensures Valid() && req.connection == null && req !in queue
      ensures withdrawn == old(withdrawn) +
                if !old(req.queued) then {}
                else if old(req in queue) then {req}
                else if old(queue) == [] then {} else {old(queue)[|old(queue)| - 1]}
      ensures withdrawn == old(withdrawn) ==> queue == old(queue)
      ensures forall r :: r in withdrawn && r !in old(withdrawn) ==> Lacks(old(queue), queue, r)
      ensures old(Busy()) ==>
                (Busy() <==>
                 queue == [] || forall s :: s in sockets && old(s.httpMessage) == req ==> !old(s.httpConnecting))
      ensures Grown()
      ensures parted == old(parted) || parted == old(parted) + {req}
      ensures forall s :: s in allSockets && old(s.httpMessage) == req ==>
                s.httpMessage == null && !s.writable && !s.readable
      ensures forall s :: s in allSockets && old(s.httpMessage) != req ==>
                SameState(s) && s.httpMessage == old(s.httpMessage)
    {
      hide LineOk, SocketsOk;
      SocketsKnown(sockets, maxSockets, allSockets);
      assert forall s :: s in sockets && s.httpMessage == req ==> req.connection == s;
      if req.queued {
        Splice(req);
      } else if req.connection != null {
        var c := req.connection;
        Detach(req, c);
        Destroy(c);
        assert c.Usable() <==> c.httpConnecting;
        assert forall s :: s in sockets && s != c ==> (s.Usable() <==> old(s.Usable())) && old(s.httpMessage) != req;
      }
    }

    /** Lines 934-936: `splice(-1, 1)` takes the last one when the request is not there any more. */
    method Splice(req: Request)
      requires Valid() && req in requests && req.queued
      modifies this`queue, this`withdrawn
      ensures Valid() && req !in queue && (old(queue) == [] ==> queue == [])
      ensures withdrawn == old(withdrawn) +
                if old(req in queue) then {req} else if old(queue) == [] then {} else {old(queue)[|old(queue)| - 1]}
      ensures withdrawn == old(withdrawn) ==> queue == old(queue)
      ensures forall r :: r in withdrawn && r !in old(withdrawn) ==> Lacks(old(queue), queue, r)
    {
      hide LineOk, SocketsOk;
      if queue == [] { return; }
      var i := |queue| - 1;
      if req in queue {
        i :| 0 <= i < |queue| && queue[i] == req;
      }
      FirstDrops(dispatched, queue, withdrawn, requests, made, i);
      withdrawn := withdrawn + {queue[i]};
      queue := queue[..i] + queue[i + 1..];
    }
  }

  function IndexOf(sockets: seq<Socket>, s: Socket): (i: nat)
    ensures i <= |sockets| && (i < |sockets| ==> sockets[i] == s) && (i == |sockets| ==> s !in sockets)
  {
    if sockets == [] || sockets[0] == s then 0 else 1 + IndexOf(sockets[1..], s)
  }

  lemma SocketRemoved(sockets: seq<Socket>, max: nat, all: set<Socket>, i: nat)
    requires SocketsOk(sockets, max, all) && i < |sockets|
    ensures SocketsOk(sockets[..i] + sockets[i + 1..], max, all)
    ensures sockets[i] !in sockets[..i] + sockets[i + 1..]
    ensures forall s :: s in sockets <==> s in sockets[..i] + sockets[i + 1..] || s == sockets[i]
  {
    assert sockets == sockets[..i] + [sockets[i]] + sockets[i + 1..];
  }

  /** One request is taken out of the queue. */
  lemma FirstDrops(dispatched: seq<Request>, queue: seq<Request>, withdrawn: set<Request>,
      requests: set<Request>, made: nat, i: nat)
    requires LineOk(dispatched, queue, withdrawn, requests, made) && i < |queue|
    ensures queue[i] in requests && queue[i] !in queue[..i] + queue[i + 1..] && queue[i] !in dispatched
    ensures LineOk(dispatched, queue[..i] + queue[i + 1..], withdrawn + {queue[i]}, requests, made)
    ensures queue[i] !in withdrawn
  {
    var line, n, rest := dispatched + queue, |dispatched| + i, queue[..i] + queue[i + 1..];
    var less := dispatched + rest;
    assert line[n] == queue[i];
    forall k | 0 <= k < |less|
      ensures less[k] == line[if k < n then k else k + 1] && less[k] != queue[i]
    {
      var m := if k < n then k else k + 1;
      assert less[k] == line[m];
      assert line[m].number != line[n].number;
    }
    assert forall k :: 0 <= k < |dispatched| ==> dispatched[k] == less[k];
    assert forall k :: 0 <= k < |rest| ==> rest[k] == less[|dispatched| + k];
    assert queue == queue[..i] + [queue[i]] + queue[i + 1..];
  }

  /** A request made now comes after all others. */
  lemma RequestAdded(dispatched: seq<Request>, queue: seq<Request>, withdrawn: set<Request>,
      requests: set<Request>, made: nat, r: Request)
    requires LineOk(dispatched, queue, withdrawn, requests, made) && r !in requests && r.number == made
    ensures LineOk(dispatched, queue + [r], withdrawn, requests + {r}, made + 1) && r !in dispatched
  {
    var line := dispatched + queue;
    assert dispatched + (queue + [r]) == line + [r];
    assert forall i :: 0 <= i < |line| ==> line[i] in requests;
  }

  lemma SocketAdded(sockets: seq<Socket>, max: nat, all: set<Socket>, s: Socket)
    requires SocketsOk(sockets, max, all) && s !in all && |sockets| < max
    ensures SocketsOk(sockets + [s], max, all + {s})
  {
  }

  lemma SocketsKnown(sockets: seq<Socket>, max: nat, all: set<Socket>)
    requires SocketsOk(sockets, max, all)
    ensures forall s :: s in sockets ==> s in all
  {
  }

  lemma SocketKnown(sockets: seq<Socket>, max: nat, all: set<Socket>, s: Socket)
    requires SocketsOk(sockets, max, all) && s in sockets
    ensures s in all
  {
  }

  /** What happens next, to which socket in the order they were opened, or to which request in the order made. */
  datatype Event =
    | Makes
    | Aborts(r: nat)
    | Connects(k: nat)
    | Fails(k: nat)
    | Closes(k: nat)
    | Stops(k: nat)
    | Responds(k: nat, r: nat, keepAlive: bool, flushed: bool)

  predicate AtSocket(ev: Event) {
    !ev.Makes? && !ev.Aborts?
  }

  predicate MakesRequest(ev: Event) {
    ev.Makes?
  }

  /** A request may be lost to the queue by these, */
  predicate Withdraws(ev: Event) {
    ev.Aborts? || ev.Fails?
  }

  /** and parted from its socket by these. */
  predicate Parts(ev: Event) {
    ev.Aborts? || ev.Responds?
  }

  /** The response of a socket ends the connection only by these. */
  predicate Ends(ev: Event) {
    ev.Responds? && !ev.keepAlive
  }

  function Count(events: seq<Event>, p: Event -> bool): nat {
    if events == [] then 0
    else Count(events[..|events| - 1], p) + if p(events[|events| - 1]) then 1 else 0
  }

  /** What an event leaves of the socket it happens to. */
  ghost predicate Befell(a: Agent, s: Socket, ev: Event)
    reads a, s
  {
    match ev
    case Connects(_) => !s.httpConnecting
    case Fails(_) => s !in a.sockets && !s.writable && !s.readable
    case Closes(_) => s !in a.sockets && !s.writable && !s.readable
    case Stops(_) => !s.writable && !s.readable
    case _ => true
  }

  /** And of one whose response has ended without keep-alive, if it could be closed. */
  ghost predicate Closed(a: Agent, s: Socket)
    reads a, s
  {
    !s.writable && (s.httpConnecting || s in a.closed)
  }

  lemma AtMostOneMore<T>(a: set<T>, b: set<T>, x: T)
    requires b == a || b == a + {x}
    ensures |b| <= |a| + 1
  {
  }

  /** Something happens to a socket. */
  method SocketEvent(a: Agent, s: Socket, r: Request?, ev: Event)
    requires a.Valid() && s in a.allSockets && AtSocket(ev) && (r != null ==> r in a.requests)
    modifies a, a.requests, a.allSockets
    ensures a.Valid() && (old(a.Busy()) ==> a.Busy()) && a.Grown() && a.made == old(a.made)
    ensures |a.withdrawn| <= |old(a.withdrawn)| + if Withdraws(ev) then 1 else 0
    ensures |a.parted| <= |old(a.parted)| + if Parts(ev) then 1 else 0
    ensures old(a.closed) <= a.closed && |a.closed| <= |old(a.closed)| + if Ends(ev) then 1 else 0
    ensures Befell(a, s, ev)
    ensures Ends(ev) && r != null && old(s.httpMessage == null || s.httpMessage == r) ==>
              Closed(a, s) || (old(s.writable) && !ev.flushed)
    ensures a.requests == old(a.requests)
  {
    hide LineOk, SocketsOk, Agent.Linked;
    match ev
    case Connects(_) => if s.httpConnecting { a.OnConnect(s); }
    case Fails(_) => var _ := a.OnError(s);
    case Closes(_) => a.OnClose(s);
    case Stops(_) => a.Destroy(s);
    case Responds(_, _, keepAlive, flushed) =>
      if r != null && (s.httpMessage == null || s.httpMessage == r) {
        var _ := a.OnResponseEnd(s, r, keepAlive, flushed);
      }
    case _ =>
  }

  /** One event; `made` are the requests in the order they were made. */
  method Happens(a: Agent, made: seq<Request>, ev: Event) returns (made': seq<Request>)
    requires a.Valid() && |made| == a.made && forall r :: r in made ==> r in a.requests
    modifies a, a.requests, a.allSockets
    ensures a.Valid() && a.Grown() && a.made == old(a.made) + if MakesRequest(ev) then 1 else 0
    ensures |made'| == a.made && made <= made' && forall r :: r in made' ==> r in a.requests
    ensures |a.withdrawn| <= |old(a.withdrawn)| + if Withdraws(ev) then 1 else 0
    ensures |a.parted| <= |old(a.parted)| + if Parts(ev) then 1 else 0
    ensures old(a.closed) <= a.closed && |a.closed| <= |old(a.closed)| + if Ends(ev) then 1 else 0
    ensures ev.Makes? || (old(a.Busy()) && !ev.Aborts?) ==> a.Busy()
    ensures ev.Aborts? && ev.r < |made| ==> made[ev.r].connection == null && made[ev.r] !in a.queue
    ensures AtSocket(ev) && ev.k < |old(a.socketList)| ==> Befell(a, a.socketList[ev.k], ev)
    ensures Ends(ev) && ev.k < |old(a.socketList)| && ev.r < |made|
            && old(a.socketList[ev.k].httpMessage == null || a.socketList[ev.k].httpMessage == made[ev.r]) ==>
              Closed(a, a.socketList[ev.k]) || (old(a.socketList[ev.k].writable) && !ev.flushed)
  {
    hide LineOk, SocketsOk;
    made' := made;
    if ev.Makes? {
      var r := a.AppendMessage();
      made' := made + [r];
    } else if ev.Aborts? {
      if ev.r < |made| {
        ghost var parted := a.parted;
        a.Abort(made[ev.r]);
        AtMostOneMore(parted, a.parted, made[ev.r]);
      }
    } else if ev.k < |a.socketList| {
      var r := if ev.Responds? && ev.r < |made| then made[ev.r] else null;
      SocketEvent(a, a.socketList[ev.k], r, ev);
    }
  }

  lemma CountOne(events: seq<Event>, n: nat, p: Event -> bool)
    requires n < |events|
    ensures Count(events[..n + 1], p) == Count(events[..n], p) + if p(events[n]) then 1 else 0
  {
    assert events[..n + 1][..n] == events[..n];
  }

  /**
   * Any run of requests made and aborted, connections, responses, errors and closes, at any sockets. At every
   * point the agent is in order, and as long as nothing is aborted nobody waits needlessly.
   */
  method Run(maxSockets: nat, events: seq<Event>) returns (a: Agent)
    ensures fresh(a) && a.Valid() && a.maxSockets == maxSockets && |a.requests| == Count(events, MakesRequest)
    ensures |a.withdrawn| <= Count(events, Withdraws) && |a.parted| <= Count(events, Parts)
    ensures |a.closed| <= Count(events, Ends) && forall s :: s in a.closed ==> s.Shut()
    ensures (forall n :: 0 <= n < |events| ==> !events[n].Aborts?) || (events != [] && events[|events| - 1].Makes?) ==>
              a.Busy()
  {
    hide LineOk, SocketsOk, Count, MakesRequest, Withdraws, Parts, Ends;
    a := new Agent(maxSockets);
    assert events[..0] == [];
    CountNothing();
    var made := [];
    for n := 0 to |events|
      invariant fresh(a) && a.Valid() && a.maxSockets == maxSockets && a.made == Count(events[..n], MakesRequest)
      invariant |a.withdrawn| <= Count(events[..n], Withdraws) && |a.parted| <= Count(events[..n], Parts)
      invariant |a.closed| <= Count(events[..n], Ends)
      invariant (forall k :: 0 <= k < n ==> !events[k].Aborts?) || (n > 0 && events[n - 1].Makes?) ==> a.Busy()
      invariant |made| == a.made && forall r :: r in made ==> r in a.requests
      invariant forall s :: s in a.allSockets ==> fresh(s)
      invariant forall r :: r in a.requests ==> fresh(r)
    {
      CountOne(events, n, MakesRequest);
      CountOne(events, n, Withdraws);
      CountOne(events, n, Parts);
      CountOne(events, n, Ends);
      assert events[..n + 1] == events[..n] + [events[n]];
      made := Happens(a, made, events[n]);
    }
    assert events[..|events|] == events;
    LineCount(a.dispatched, a.queue, a.withdrawn, a.requests, a.made);
  }

  lemma CountNothing()
    ensures forall p :: Count([], p) == 0
  {
  }

  /** One socket only, and the first request has it while it connects. */
  method Alone() returns (a: Agent, first: Request, s: Socket)
    ensures fresh(a) && fresh(first) && fresh(s) && a.Valid() && a.maxSockets == 1 && a.requests == {first}
    ensures a.allSockets == {s} && a.sockets == [s] && a.queue == [] && a.dispatched == [first]
    ensures s.httpMessage == first && s.httpConnecting
  {
    hide LineOk;
    a := new Agent(1);
    first := a.AppendMessage();
    assert first in a.dispatched + a.queue;
    assert forall t :: t in a.sockets ==> t in a.allSockets && t.httpMessage in a.dispatched;
    assert a.queue == [] by { assert a.sockets != [] ==> a.sockets[0] in a.sockets; }
    assert a.dispatched == [first];
    s := first.connection;
    assert forall t :: t in a.allSockets ==> t.httpMessage == first;
  }

  /** A run that leaves somebody waiting: one socket, two requests, and the first is aborted while it connects. */
  method LeftWaiting() returns (a: Agent, second: Request)
    ensures fresh(a) && a.Valid() && a.queue == [second] && |a.sockets| == 1 && a.sockets[0].Usable() && !a.Busy()
  {
    hide LineOk;
    var first, s;
    a, first, s := Alone();
    second := a.AppendMessage();
    Settle(a.sockets, s);
    assert a.sockets == [s] && s.httpMessage == first && s.httpConnecting;
    assert forall t :: t in a.allSockets ==> t.httpMessage == first;
    SecondWaits(a.dispatched, a.queue, first, second);
    a.Abort(first);
  }

  lemma SecondWaits(dispatched: seq<Request>, queue: seq<Request>, first: Request, second: Request)
    requires dispatched + queue == [first, second] && [first] <= dispatched && second !in dispatched
    ensures queue == [second]
  {
    var line := dispatched + queue;
    var n := |dispatched| - 1;
    assert dispatched[n] in dispatched && dispatched[n] == line[n] && line[1] == second;
    assert queue == line[1..];
  }

  lemma Settle(sockets: seq<Socket>, s: Socket)
    requires [s] <= sockets && |sockets| <= 1
    ensures sockets == [s]
  {
  }
}
