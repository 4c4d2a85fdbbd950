/** Server connections and the server's connection choice (nc_server.cpp,
    nc_server.h): NcServer::getConn and the NcServerConn overrides of ref,
    unref, connect, sendNext, sendDone, recvNext and recvDone. A server's
    context is its pool's, so `HasContext` stands for it. System calls
    are replaced by their results, gathered in `ConnectEnv`. */
module Servers {
  import opened Common
  import opened Util
  import opened Queue
  import opened NcStr
  import opened Event
  import opened Pools
  import opened Store
  import opened ObjectPool
  import Epoll

  /** The connection a server is asked for, when its count has reached
      the pool's server_connections: the head of its queue, or NULL for an
      empty queue. */
  function Head(q: seq<Option<ConnRef>>): (r: Option<ConnRef>)
    ensures q != [] ==> r == q[0]
    ensures q == [] ==> r.None?
  {
    if q == [] then None else q[0]
  }

  /** NcServer::getConn for server `i`: nothing without a context; below
      the pool's server_connections a connection is taken from the server
      connection pool (neither counted nor queued here); at the limit the
      head of the server's queue is moved to its tail and returned. An
      empty queue yields NULL and gets a NULL pushed onto it. */
  function GetConn(w: World, i: nat, made: Option<ConnRef>, blank: Conn): (r: (World, Option<ConnRef>))
    requires i < |w.pool.servers|
    requires made.Some? ==> made.value !in w.conns
    requires Constructed(blank, ServerRole)
    ensures !w.pool.hasCtx ==> r == (w, None)
    ensures w.pool.hasCtx && w.pool.servers[i].nsConn < w.pool.serverConnections ==>
              r == AllocConn(w, SPool, made, blank, ServerRole)
    ensures w.pool.hasCtx && w.pool.servers[i].nsConn >= w.pool.serverConnections ==>
              var q := w.pool.servers[i].connQ;
              r.1 == Head(q) &&
              r.0 == w.(pool := WithServer(w.pool, i, w.pool.servers[i].(connQ := Push(Remove(q, Head(q)), Head(q)))))
  {
    if !w.pool.hasCtx then (w, None)
    else
      var s := w.pool.servers[i];
      if s.nsConn < w.pool.serverConnections then AllocConn(w, SPool, made, blank, ServerRole)
      else
        var conn := Head(s.connQ);
        (w.(pool := WithServer(w.pool, i, s.(connQ := Push(Remove(s.connQ, conn), conn)))), conn)
  }

  /** At the limit getConn rotates the queue: the head goes to the tail,
      nothing is lost or added, and the old second entry is the next one
      asked for. On an empty queue it returns NULL and leaves one NULL
      entry behind. */
  lemma GetConnRotates(w: World, i: nat, made: Option<ConnRef>, blank: Conn)
    requires i < |w.pool.servers| && w.pool.hasCtx
    requires made.Some? ==> made.value !in w.conns
    requires Constructed(blank, ServerRole)
    requires w.pool.servers[i].nsConn >= w.pool.serverConnections
    ensures var q := w.pool.servers[i].connQ;
      var r := GetConn(w, i, made, blank);
      (q != [] ==> r.1 == q[0] && r.0.pool.servers[i].connQ == q[1..] + [q[0]]) &&
      (q == [] ==> r.1.None? && r.0.pool.servers[i].connQ == [None])
  {
    var q := w.pool.servers[i].connQ;
    var r := GetConn(w, i, made, blank);
    assert r.0.pool.servers[i].connQ == Push(Remove(q, Head(q)), Head(q));
    if q != [] {
      RotateFront(q);
    } else {
      assert Remove(q, None) == [];
    }
  }

  /** Removing the front entry and pushing it again moves it to the back. */
  lemma RotateFront(q: seq<Option<ConnRef>>)
    requires q != []
    ensures Push(Remove(q, q[0]), q[0]) == q[1..] + [q[0]]
  {
    assert IndexOf(q, q[0]) == 0;
    assert Remove(q, q[0]) == q[1..];
  }

  /** The owning server of a server connection. */
  predicate OwnedBy(w: World, c: ConnRef, i: nat) {
    c in w.conns && w.conns[c].owner == Some(ServerOwner(i)) && i < |w.pool.servers|
  }

  /** ncResolve's view of the server's address string. */
  function NameOf(s: NcString): (r: Option<seq<byte>>)
    requires NcStr.Valid(s)
    ensures r == Some(NcStr.Content(s))
  {
    Some(NcStr.Content(s))
  }

  /** NcServerConn::ref(server i): the server's address is resolved into
      its socket info (`lookup` is the name-service answer); a failure
      marks the connection with EHOSTDOWN and done. The connection takes
      the server's family, length and address, the server counts it
      (32-bit) and queues it, and the server becomes its owner. */
  function Ref(w: World, c: ConnRef, i: nat, lookup: Option<SockInfo>): (r: World)
    requires c in w.conns && i < |w.pool.servers| && NcStr.Valid(w.pool.servers[i].addrstr)
    ensures |r.pool.servers| == |w.pool.servers| && c in r.conns
    ensures var s := w.pool.servers[i];
      var (st, info) := Resolve(NameOf(s.addrstr), s.info, lookup);
      var io := w.conns[c].io;
      r.pool.servers[i] == s.(info := info, nsConn := U32(s.nsConn + 1), connQ := Push(s.connQ, Some(c))) &&
      r.conns[c].owner == Some(ServerOwner(i)) &&
      r.conns[c].io == (if st != 0 then io.(err := EHOSTDOWN, done := true) else io)
                         .(family := info.family, addrlen := info.addrlen, addr := Some(info.addr))
    ensures r.conns[c] == w.conns[c].(owner := r.conns[c].owner, io := r.conns[c].io)
    ensures r == w.(pool := r.pool, conns := w.conns[c := r.conns[c]])
    ensures r.pool == WithServer(w.pool, i, r.pool.servers[i])
  {
    var s := w.pool.servers[i];
    var (st, info) := Resolve(NameOf(s.addrstr), s.info, lookup);
    var x := w.conns[c];
    var io := if st != 0 then x.io.(err := EHOSTDOWN, done := true) else x.io;
    var io' := io.(family := info.family, addrlen := info.addrlen, addr := Some(info.addr));
    var s' := s.(info := info, nsConn := U32(s.nsConn + 1), connQ := Push(s.connQ, Some(c)));
    w.(pool := WithServer(w.pool, i, s'), conns := w.conns[c := x.(io := io', owner := Some(ServerOwner(i)))])
  }

  /** NcServerConn::unref: no owner, one connection fewer (32-bit, so a
      zero count wraps), and the connection leaves the server's queue. */
  function Unref(w: World, c: ConnRef, i: nat): (r: World)
    requires OwnedBy(w, c, i)
    ensures |r.pool.servers| == |w.pool.servers|
    ensures var s := w.pool.servers[i];
      r.pool.servers[i] == s.(nsConn := U32(s.nsConn - 1), connQ := Remove(s.connQ, Some(c)))
    ensures r.pool == WithServer(w.pool, i, r.pool.servers[i])
    ensures r == w.(pool := r.pool, conns := w.conns[c := w.conns[c].(owner := None)])
  {
    var s := w.pool.servers[i];
    w.(pool := WithServer(w.pool, i, s.(nsConn := U32(s.nsConn - 1), connQ := Remove(s.connQ, Some(c)))),
       conns := w.conns[c := w.conns[c].(owner := None)])
  }

  /** unref undoes ref on the server's bookkeeping: the count and the
      queue are back, and the connection has no owner. */
  lemma RefThenUnref(w: World, c: ConnRef, i: nat, lookup: Option<SockInfo>)
    requires c in w.conns && i < |w.pool.servers| && NcStr.Valid(w.pool.servers[i].addrstr)
    requires Some(c) !in w.pool.servers[i].connQ && w.pool.servers[i].nsConn + 1 < Two32
    ensures var w1 := Ref(w, c, i, lookup);
      OwnedBy(w1, c, i) &&
      var w2 := Unref(w1, c, i);
      w2.pool.servers[i].connQ == w.pool.servers[i].connQ &&
      w2.pool.servers[i].nsConn == w.pool.servers[i].nsConn &&
      w2.conns[c].owner.None? &&
      (forall j :: 0 <= j < |w.pool.servers| && j != i ==> w2.pool.servers[j] == w.pool.servers[j])
  {
    var w1 := Ref(w, c, i, lookup);
    RemoveUndoesPush(w.pool.servers[i].connQ, Some(c));
    assert w1.pool.servers[i].nsConn == w.pool.servers[i].nsConn + 1;
  }

  /** What connect's system calls return: the socket descriptor, the
      non-blocking switch, the epoll registration, connect itself, and the
      errno the failing call leaves. */
  datatype ConnectEnv = ConnectEnv(sd: int, nonblock: int, addConn: int, connect: int, errno: int)

  /** NcServerConn::connect on the connection record. A connection with
      an error fails at once; one with a descriptor above 0 is already
      connected. Otherwise a socket is made and set non-blocking
      (TCP_NODELAY failures are ignored), the socket is registered for
      reading and writing, and connect either succeeds, reports
      EINPROGRESS (connecting) or fails. Every failure records errno on the
      connection and returns the failing call's status. */
  /** How a connect attempt on a fresh socket ends: failed with the
      failing call's status (after or before the socket was registered
      with the event base), connecting (EINPROGRESS) or connected. */
  datatype Outcome = Failed(status: int, registered: bool) | Connecting | Connected

  /** The outcome of the system calls connect makes, in their order:
      socket, the non-blocking switch, the registration, connect. */
  function Attempt(env: ConnectEnv): (r: Outcome)
    ensures r.Failed? ==> r.status != Ok
    ensures !r.Failed? <==> env.sd >= 0 && env.nonblock == Ok && env.addConn == 0 &&
                            (env.connect == 0 || env.errno == EINPROGRESS)
    ensures r.Connected? <==> env.sd >= 0 && env.nonblock == Ok && env.addConn == 0 && env.connect == 0
    ensures r.Failed? ==> (r.registered <==> env.sd >= 0 && env.nonblock == Ok)
  {
    if env.sd < 0 then Failed(Error, false)
    else if env.nonblock != Ok then Failed(env.nonblock, false)
    else if env.addConn != Ok then Failed(env.addConn, true)
    else if env.connect != 0 then
      if env.errno == EINPROGRESS then Connecting else Failed(env.connect, true)
    else Connected
  }

  /** The descriptor record after the attempt: the new socket, registered
      for reading and writing when registration was reached. */
  function OpenedIo(io: ConnIo, env: ConnectEnv): (r: ConnIo)
    ensures r.sd == env.sd && r.err == io.err
    ensures (!Attempt(env).Failed? || Attempt(env).registered) && env.addConn >= 0 ==>
              r.recvActive && r.sendActive
  {
    var io0 := io.(sd := env.sd);
    var o := Attempt(env);
    if !o.Failed? || o.registered then Epoll.AddConn(io0, EventRead | EventWrite, env.addConn).1 else io0
  }

  /** NcServerConn::connect on the connection record. A connection with
      an error fails at once; one with a descriptor above 0 is already
      connected. Otherwise a socket is made and set non-blocking
      (TCP_NODELAY failures are ignored), the socket is registered for
      reading and writing, and connect either succeeds, reports
      EINPROGRESS (connecting) or fails. Every failure records errno on the
      connection and returns the failing call's status. */
  function Open(x: Conn, env: ConnectEnv): (r: (int, Conn))
    ensures x.io.err != 0 ==> r == (Error, x)
    ensures x.io.err == 0 && x.io.sd > 0 ==> r == (Ok, x)
    ensures r.1 == x.(io := r.1.io, connecting := r.1.connecting, connected := r.1.connected)
    ensures x.io.err == 0 && x.io.sd <= 0 ==> r.1.io.sd == env.sd
    ensures x.io.err == 0 && x.io.sd <= 0 ==>
              (r.0 == Ok <==> env.sd >= 0 && env.nonblock == Ok && env.addConn == 0 &&
                              (env.connect == 0 || env.errno == EINPROGRESS))
    ensures x.io.err == 0 && x.io.sd <= 0 && r.0 == Ok ==>
              (env.connect == 0 ==> r.1.connected && r.1.connecting == x.connecting) &&
              (env.connect != 0 ==> r.1.connecting && r.1.connected == x.connected) &&
              r.1.io.recvActive && r.1.io.sendActive && r.1.io.err == 0
    ensures x.io.err == 0 && x.io.sd <= 0 && r.0 != Ok ==>
              r.1.io.err == env.errno && r.1.connecting == x.connecting && r.1.connected == x.connected
  {
    if x.io.err != 0 then (Error, x)
    else if x.io.sd > 0 then (Ok, x)
    else
      var io := OpenedIo(x.io, env);
      match Attempt(env)
      case Failed(st, _) => (st, x.(io := io.(err := env.errno)))
      case Connecting => (Ok, x.(io := io, connecting := true))
      case Connected => (Ok, x.(io := io, connected := true))
  }

  /** connect on connection `c` of the world. */
  function Connect(w: World, c: ConnRef, env: ConnectEnv): (r: (int, World))
    requires c in w.conns
    ensures r.0 == Open(w.conns[c], env).0
    ensures r.1 == WithConn(w, c, Open(w.conns[c], env).1)
  {
    var (st, x) := Open(w.conns[c], env);
    (st, WithConn(w, c, x))
  }

  /** Once connect has succeeded on a descriptor above 0, connecting again
      asks for nothing and changes nothing, whatever the system would say. */
  lemma ConnectThenConnect(x: Conn, env: ConnectEnv, env2: ConnectEnv)
    requires x.io.err == 0 && x.io.sd <= 0 && env.sd > 0
    requires Open(x, env).0 == Ok
    ensures Open(Open(x, env).1, env2) == (Ok, Open(x, env).1)
  {
  }

  /** A failed connect leaves an error behind, so every later connect
      fails at once without a system call. */
  lemma FailedConnectSticks(x: Conn, env: ConnectEnv, env2: ConnectEnv)
    requires x.io.err == 0 && x.io.sd <= 0 && env.errno != 0
    requires Open(x, env).0 != Ok
    ensures Open(Open(x, env).1, env2) == (Error, Open(x, env).1)
  {
  }

  /** The outcome of sendNext: the message to send, if any. */
  datatype Next = Next(w: World, msg: Option<MsgRef>)

  /** NcServerConn::sendNext on the connection record. A connecting
      connection retries connect first (its status is dropped). With
      nothing queued for the server the write interest is dropped (a
      failure records errno) and nothing is sent. Otherwise the head of the
      input queue is sent, or, when a message is already being sent, the
      second entry of the queue (nothing when there is none): the queue is
      read from its start, not from the message in flight. */
  function PickNext(x: Conn, env: ConnectEnv, delStatus: int, errno: int): (r: (Conn, Option<MsgRef>))
    ensures var x1 := if x.connecting then Open(x, env).1 else x;
      var y := r.0;
      (x.imsgQ == [] ==> r.1.None? && y == x1.(io := y.io)) &&
      (x.imsgQ == [] && !x1.io.sendActive ==> y.io == x1.io) &&
      (x.imsgQ == [] && x1.io.sendActive ==>
         y.io == x1.io.(sendActive := delStatus < 0, err := if delStatus != Ok then errno else x1.io.err)) &&
      (x.imsgQ != [] ==> y == x1.(smsg := r.1))
    ensures r.1.Some? ==> r.1.value in x.imsgQ
    ensures x.imsgQ != [] && x.smsg.None? ==> r.1 == Some(x.imsgQ[0])
    ensures x.imsgQ != [] && x.smsg.Some? ==> (r.1.None? <==> |x.imsgQ| == 1)
    ensures x.imsgQ != [] && x.smsg.Some? && |x.imsgQ| > 1 ==> r.1 == Some(x.imsgQ[1])
  {
    var x1 := if x.connecting then Open(x, env).1 else x;
    if x1.imsgQ == [] then
      var (st, io, _) := Epoll.DelOutput(x1.io, delStatus);
      (x1.(io := if st != Ok then io.(err := errno) else io), None)
    else
      var nmsg := if x1.smsg.None? then Some(x1.imsgQ[0])
                  else if |x1.imsgQ| > 1 then Some(x1.imsgQ[1]) else None;
      (x1.(smsg := nmsg), nmsg)
  }

  /** sendNext on connection `c`. */
  function SendNext(w: World, c: ConnRef, env: ConnectEnv, delStatus: int, errno: int): (r: Next)
    requires c in w.conns
    ensures var (y, m) := PickNext(w.conns[c], env, delStatus, errno);
      r == Next(WithConn(w, c, y), m)
  {
    var (y, m) := PickNext(w.conns[c], env, delStatus, errno);
    Next(WithConn(w, c, y), m)
  }

  /** With nothing in flight, sendNext hands out the head of the input
      queue and records it as the message being sent. */
  lemma SendNextTakesHead(x: Conn, env: ConnectEnv, delStatus: int, errno: int)
    requires !x.connecting && x.imsgQ != [] && x.smsg.None?
    ensures var r := PickNext(x, env, delStatus, errno);
      r.1 == Some(x.imsgQ[0]) && r.0 == x.(smsg := r.1)
  {
  }

  /** Asked again while the head is in flight, sendNext moves on to the
      second request; asked a third time it hands out the second one
      again, because it never looks past index 1. */
  lemma SendNextStopsAtSecond(x: Conn, a: MsgRef, b: MsgRef, d: MsgRef, env: ConnectEnv, delStatus: int, errno: int)
    requires !x.connecting && x.imsgQ == [a, b, d] && x.smsg.None?
    ensures var r1 := PickNext(x, env, delStatus, errno);
      var r2 := PickNext(r1.0, env, delStatus, errno);
      var r3 := PickNext(r2.0, env, delStatus, errno);
      r1.1 == Some(a) && r2.1 == Some(b) && r3.1 == Some(b)
  {
  }

  /** NcServerConn::sendDone(msg): the request leaves the input queue; it
      moves to the outstanding queue when a reply is expected and is freed
      (forced) otherwise. */
  function SendDone(w: World, c: ConnRef, m: MsgRef): (r: World)
    requires c in w.conns && w.conns[c].role == ServerRole && PeerOk(w, m)
    requires w.conns[c].owner.Some? ==> w.pool.hasCtx
    ensures var x := w.conns[c];
      var x1 := x.(imsgQ := Remove(x.imsgQ, m));
      (!w.msgs[m].noreply ==> r == WithConn(w, c, x1.(omsgQ := Push(x.omsgQ, m)))) &&
      (w.msgs[m].noreply ==> r == FreeMsg(WithConn(w, c, x1), c, m, true))
  {
    var x := w.conns[c];
    var w1 := WithConn(w, c, DequeueInput(x, m));
    if !w.msgs[m].noreply then WithConn(w1, c, EnqueueOutput(w1.conns[c], m))
    else FreeMsg(w1, c, m, true)
  }

  /** sendDone moves a request that expects a reply from the input queue
      to the tail of the outstanding queue: the two queues together hold
      the same messages as before. */
  lemma SendDoneMovesRequest(w: World, c: ConnRef, m: MsgRef)
    requires c in w.conns && w.conns[c].role == ServerRole && PeerOk(w, m)
    requires w.conns[c].owner.Some? ==> w.pool.hasCtx
    requires m in w.conns[c].imsgQ && !w.msgs[m].noreply
    ensures var x := w.conns[c]; var y := SendDone(w, c, m).conns[c];
      multiset(y.imsgQ) + multiset(y.omsgQ) == multiset(x.imsgQ) + multiset(x.omsgQ) &&
      y.omsgQ == x.omsgQ + [m] && multiset(y.imsgQ)[m] == multiset(x.imsgQ)[m] - 1
  {
    var x := w.conns[c];
    RemoveMultiset(x.imsgQ, m);
  }

  /** NcServerConn::recvNext(alloc). At end of file a partly received
      response is dropped and freed (unforced), the connection is done and
      nothing is returned. Otherwise the message being received is
      returned; failing that, with `alloc`, a message is taken from the
      message pool and becomes the one being received. */
  function RecvNext(w: World, c: ConnRef, alloc: bool, made: Option<MsgRef>, blank: Msg): (r: Next)
    requires c in w.conns && Wf(w)
    requires w.conns[c].owner.Some? ==> w.pool.hasCtx
    requires made.Some? ==> made.value !in w.msgs
    requires blank.mbufs == [] && blank.key == 0 && blank.data.None?
    ensures c in r.w.conns
    ensures w.conns[c].io.eof ==>
              r.msg.None? && r.w.conns[c].rmsg.None? &&
              r.w.conns[c] == w.conns[c].(rmsg := None, io := w.conns[c].io.(done := true))
    ensures w.conns[c].io.eof && w.conns[c].rmsg.None? ==> r.w == WithConn(w, c, r.w.conns[c])
    ensures w.conns[c].io.eof && w.conns[c].rmsg.Some? && w.conns[c].owner.Some? ==>
              var m := w.conns[c].rmsg.value;
              r.w.msgPool.free == w.msgPool.free + [m] &&
              r.w.mbufPool.free == w.mbufPool.free + w.msgs[m].mbufs && r.w.tree == w.tree
    ensures !w.conns[c].io.eof && w.conns[c].rmsg.Some? ==> r == Next(w, w.conns[c].rmsg)
    ensures !w.conns[c].io.eof && w.conns[c].rmsg.None? && !alloc ==> r == Next(w, None)
    ensures !w.conns[c].io.eof && w.conns[c].rmsg.None? && alloc ==>
              r.msg == Alloc(w.msgPool, made).1 && r.w.conns[c] == w.conns[c].(rmsg := r.msg) &&
              r.w.msgPool == Alloc(w.msgPool, made).0
  {
    var x := w.conns[c];
    if x.io.eof then
      var w1 := WithConn(w, c, x.(rmsg := None, io := x.io.(done := true)));
      if x.rmsg.Some? then
        assert ConnOk(w, x) && MsgOk(w, w.msgs[x.rmsg.value]);
        Next(FreeMsg(w1, c, x.rmsg.value, false), None)
      else Next(w1, None)
    else if x.rmsg.Some? then Next(w, x.rmsg)
    else if !alloc then Next(w, None)
    else
      var (w2, o) := AllocMsg(w, made, blank);
      Next(WithConn(w2, c, x.(rmsg := o)), o)
  }

  /** recvNext at end of file keeps the world well formed. */
  lemma RecvNextAtEofKeepsWf(w: World, c: ConnRef, alloc: bool, made: Option<MsgRef>, blank: Msg)
    requires c in w.conns && Wf(w) && w.conns[c].io.eof && w.conns[c].owner.Some? && w.pool.hasCtx
    requires made.Some? ==> made.value !in w.msgs
    requires blank.mbufs == [] && blank.key == 0 && blank.data.None?
    ensures Wf(RecvNext(w, c, alloc, made, blank).w)
    ensures RecvNext(w, c, alloc, made, blank).w.msgs.Keys == w.msgs.Keys
  {
    var x := w.conns[c];
    var x1 := x.(rmsg := None, io := x.io.(done := true));
    var w1 := WithConn(w, c, x1);
    assert ConnOk(w, x);
    WithConnKeepsWf(w, c, x1);
    if x.rmsg.Some? {
      FreeMsgKeepsWf(w1, c, x.rmsg.value, false);
    }
  }

  /** End of file is final: once recvNext has handled it, a second call
      returns nothing and leaves the connection as it is. */
  lemma RecvNextAtEof(w: World, c: ConnRef, alloc: bool, made: Option<MsgRef>, blank: Msg)
    requires c in w.conns && Wf(w) && w.conns[c].io.eof && w.conns[c].owner.Some? && w.pool.hasCtx
    requires made.Some? ==> made.value !in w.msgs
    requires blank.mbufs == [] && blank.key == 0 && blank.data.None?
    ensures var r := RecvNext(w, c, alloc, made, blank);
      Wf(r.w) && c in r.w.conns && (made.Some? ==> made.value !in r.w.msgs) &&
      var r2 := RecvNext(r.w, c, alloc, made, blank);
      r2.msg.None? && r2.w.conns[c] == r.w.conns[c]
  {
    RecvNextAtEofKeepsWf(w, c, alloc, made, blank);
    var r := RecvNext(w, c, alloc, made, blank);
    assert r.w.conns[c].io.eof && r.w.conns[c].owner == w.conns[c].owner;
  }

  /** NcServerConn::recvDone(cmsg, rmsg): the continuation becomes the
      message being received. */
  function RecvDone(w: World, c: ConnRef, rmsg: Option<MsgRef>): (r: World)
    requires c in w.conns
    ensures r == WithConn(w, c, w.conns[c].(rmsg := rmsg))
    ensures r.conns[c].rmsg == rmsg
  {
    WithConn(w, c, w.conns[c].(rmsg := rmsg))
  }
}
