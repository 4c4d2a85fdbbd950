/** NcProxyConn (nc_proxy.h, nc_proxy.cpp): the listening connection of
    a server pool. It owns no messages; its read event accepts clients
    until the kernel has none left, up to the context's client limit. The
    results of accept(2), close(2) and the socket-option calls are
    inputs. */
module Proxy {
  import opened Common
  import opened Util
  import opened Queue
  import opened ObjectPool
  import opened Event
  import opened Pools
  import opened Store
  import Epoll
  import Client

  // ------------------------------------------------------------ ownership

  /** ref(owner): the pool owns the proxy, which takes the pool's listen
      family, address length and address, and becomes the pool's p_conn. */
  function Ref(w: World, p: ConnRef): (r: World)
    requires p in w.conns
    ensures r.pool == w.pool.(pConn := Some(p))
    ensures r.conns.Keys == w.conns.Keys && r.conns[p].owner == Some(PoolOwner)
    ensures r.conns[p].io.family == w.pool.info.family && r.conns[p].io.addrlen == w.pool.info.addrlen
    ensures r.conns[p].io.addr == Some(w.pool.info.addr)
    ensures r.conns[p].io.sd == w.conns[p].io.sd
    ensures r.conns[p].imsgQ == w.conns[p].imsgQ && r.conns[p].omsgQ == w.conns[p].omsgQ
    ensures forall d :: d in w.conns && d != p ==> r.conns[d] == w.conns[d]
    ensures r == w.(pool := r.pool, conns := r.conns)
  {
    var x := w.conns[p];
    var i := w.pool.info;
    w.(pool := w.pool.(pConn := Some(p)),
       conns := w.conns[p := x.(owner := Some(PoolOwner),
                                io := x.io.(family := i.family, addrlen := i.addrlen, addr := Some(i.addr)))])
  }

  /** unref(): no owner, and the pool has no proxy. */
  function Unref(w: World, p: ConnRef): (r: World)
    requires p in w.conns
    ensures r.pool == w.pool.(pConn := None)
    ensures r.conns == w.conns[p := w.conns[p].(owner := None)]
    ensures r == w.(pool := r.pool, conns := r.conns)
  {
    w.(pool := w.pool.(pConn := None), conns := w.conns[p := w.conns[p].(owner := None)])
  }

  /** unref undoes ref on the pool, for a pool that had no proxy. */
  lemma RefThenUnref(w: World, p: ConnRef)
    requires p in w.conns && w.pool.pConn.None?
    ensures var r := Unref(Ref(w, p), p);
      r.pool == w.pool && r.conns[p].owner.None? && r.msgs == w.msgs
  {
  }

  /** close(): unref, then the descriptor, if open, is closed (a failing
      ::close is only logged) and cleared, and the proxy goes back to the
      proxy pool. The context is looked up before unref, so the proxy
      must be owned. */
  function Close(w: World, p: ConnRef): (r: World)
    requires HasContext(w, p)
    ensures r.pool == w.pool.(pConn := None)
    ensures r.pPool.free == w.pPool.free + [p]
    ensures r.conns.Keys == w.conns.Keys && r.conns[p].owner.None? && r.conns[p].io.sd < 0
    ensures w.conns[p].io.sd >= 0 ==> r.conns[p] == w.conns[p].(owner := None, io := w.conns[p].io.(sd := -1))
    ensures w.conns[p].io.sd < 0 ==> r.conns[p] == w.conns[p].(owner := None)
    ensures forall d :: d in w.conns && d != p ==> r.conns[d] == w.conns[d]
    ensures r.msgs == w.msgs && r.msgPool == w.msgPool && r.cPool == w.cPool && r.sPool == w.sPool
  {
    var w1 := Unref(w, p);
    if w.conns[p].io.sd < 0 then FreeConn(w1, PPool, p)
    else FreeConn(WithConn(w1, p, w1.conns[p].(io := w1.conns[p].io.(sd := -1))), PPool, p)
  }

  // ------------------------------------------------------------ listening

  /** reuse(): INET and INET6 sockets get SO_REUSEADDR, whose status is
      `reuseAddr`; a unix socket's path is unlinked and the result is OK;
      any other family is an error. */
  function Reuse(family: int, reuseAddr: int): (r: int)
    ensures family == AF_INET || family == AF_INET6 ==> r == reuseAddr
    ensures family == AF_UNIX ==> r == Ok
    ensures family != AF_INET && family != AF_INET6 && family != AF_UNIX ==> r == Error
  {
    if family == AF_INET || family == AF_INET6 then reuseAddr
    else if family == AF_UNIX then Ok
    else Error
  }

  // ------------------------------------------------------------ accepting

  /** What one accept() call meets: the outcomes of accept(2) (a
      descriptor or an errno), the process-wide client count, the
      connection `new` would give and its fresh state, and the statuses
      of the non-blocking switch and of the epoll registration. */
  datatype AcceptEnv = AcceptEnv(
    outs: seq<Io>, curCConn: nat, made: Option<ConnRef>, blank: Conn,
    nonblock: int, addConn: int)

  /** The outcome of accept(): its status, the new world, and the
      accepted descriptor when it was closed without a connection. */
  datatype Accepted = Accepted(status: int, w: World, dropped: Option<nat>)

  /** Errors after which the listening socket is simply not ready. */
  predicate NotReady(e: int) {
    e == EAGAIN || e == EWOULDBLOCK || e == ECONNABORTED || e == EMFILE || e == ENFILE
  }

  /** What closing a connection needs of every connection record and of
      the client pool: the outstanding requests and the message being
      received exist, and so does the peer of the latter. */
  ghost predicate Closable(w: World) {
    ConnsIn(w, w.cPool.free) &&
    forall c :: c in w.conns ==>
      PeersIn(w, w.conns[c].omsgQ) && (w.conns[c].rmsg.Some? ==> PeerOk(w, w.conns[c].rmsg.value))
  }

  /** A well-formed world is closable. */
  lemma WfClosable(w: World)
    requires Wf(w)
    ensures Closable(w)
  {
    forall c | c in w.conns
      ensures PeersIn(w, w.conns[c].omsgQ)
      ensures w.conns[c].rmsg.Some? ==> PeerOk(w, w.conns[c].rmsg.value)
    {
      assert ConnOk(w, w.conns[c]);
      var q := w.conns[c].omsgQ;
      forall i | 0 <= i < |q|
        ensures PeerOk(w, q[i])
      {
        assert MsgOk(w, w.msgs[q[i]]);
      }
      if w.conns[c].rmsg.Some? {
        assert MsgOk(w, w.msgs[w.conns[c].rmsg.value]);
      }
    }
  }

  /** The accepted client, descriptor set and reffed. */
  function Adopt(w: World, c: ConnRef, sd: nat): (r: World)
    requires c in w.conns
    ensures r.conns.Keys == w.conns.Keys && r.conns[c].io.sd == sd && r.conns[c].owner == Some(PoolOwner)
    ensures r.conns[c].omsgQ == w.conns[c].omsgQ && r.conns[c].rmsg == w.conns[c].rmsg
    ensures forall d :: d in w.conns && d != c ==> r.conns[d] == w.conns[d]
    ensures r.pool == w.pool.(ncConn := U32(w.pool.ncConn + 1), cConnQ := Push(w.pool.cConnQ, c))
    ensures r == w.(pool := r.pool, conns := r.conns)
  {
    Client.Ref(WithConn(w, c, w.conns[c].(io := w.conns[c].io.(sd := sd))), c)
  }

  /** accept(). accept(2) is retried on EINTR; None means its outcomes
      ran out while retrying. A socket that is not ready clears
      recv_ready and gives OK; any other accept error gives ERROR. At the
      client limit the descriptor is closed and the result is OK. When no
      connection can be had the descriptor is closed and the result is
      ENOMEM. Otherwise the client takes the descriptor and is reffed; a
      failed non-blocking switch or epoll registration closes it again
      and is returned. */
  function Accept(w: World, p: ConnRef, maxNcconn: nat, env: AcceptEnv): (r: Option<Accepted>)
    requires HasContext(w, p) && Closable(w)
    requires env.made.Some? ==> env.made.value !in w.conns
    requires Constructed(env.blank, ClientRole)
    ensures r.None? <==> FirstNonEintr(env.outs).None?
  {
    match FirstNonEintr(env.outs)
    case None => None
    case Some(Fail(e)) =>
      if NotReady(e) then
        Some(Accepted(Ok, WithConn(w, p, w.conns[p].(io := w.conns[p].io.(recvReady := false))), None))
      else Some(Accepted(Error, w, None))
    case Some(Count(sd)) =>
      if env.curCConn >= maxNcconn then Some(Accepted(Ok, w, Some(sd)))
      else Some(Take(w, sd, env))
  }

  /** Below the client limit: a connection is taken from the client pool
      for descriptor `sd`; without one the descriptor is closed and the
      result is ENOMEM. */
  function Take(w: World, sd: nat, env: AcceptEnv): (r: Accepted)
    requires w.pool.hasCtx && Closable(w)
    requires env.made.Some? ==> env.made.value !in w.conns
    requires Constructed(env.blank, ClientRole)
    ensures r.dropped.Some? <==> Taker(w, env).None?
    ensures r.dropped.Some? ==> r.status == NoMem && r.w.conns == w.conns && r.w.pool == w.pool
  {
    var (w1, o) := AllocConn(w, CPool, env.made, env.blank, ClientRole);
    if o.None? then Accepted(NoMem, w1, Some(sd))
    else
      var c := o.value;
      var w2 := Adopt(w1, c, sd);
      assert HasContext(w2, c);
      assert PeersIn(w2, w2.conns[c].omsgQ) && (w2.conns[c].rmsg.Some? ==> PeerOk(w2, w2.conns[c].rmsg.value)) by {
        if w.cPool.free == [] {
          assert o == env.made;
        } else {
          assert c == w.cPool.free[0] && c in w.conns;
        }
      }
      var (st, w3) := Admit(w2, c, env);
      Accepted(st, w3, None)
  }

  /** The reffed client is switched to non-blocking mode and registered
      for both directions; a failure of either closes it again and is
      returned. A failing keepalive or nodelay option is only logged. */
  function Admit(w: World, c: ConnRef, env: AcceptEnv): (r: (int, World))
    requires HasContext(w, c) && PeersIn(w, w.conns[c].omsgQ)
    requires w.conns[c].rmsg.Some? ==> PeerOk(w, w.conns[c].rmsg.value)
    ensures r.0 == Ok || r.0 == env.nonblock || r.0 == env.addConn
  {
    if env.nonblock < 0 then (env.nonblock, Client.Close(w, c))
    else
      var (st, io, _) := Epoll.AddConn(w.conns[c].io, EventRead | EventWrite, env.addConn);
      var w1 := WithConn(w, c, w.conns[c].(io := io));
      if st < 0 then (st, Client.Close(w1, c))
      else (Ok, w1)
  }

  /** The connection accept() hands the descriptor to: the oldest one in
      the client pool, else the new one. */
  function Taker(w: World, env: AcceptEnv): Option<ConnRef> {
    if w.cPool.free != [] then Some(w.cPool.free[0]) else env.made
  }

  /** EINTR outcomes in front are skipped. */
  lemma {:induction false} SkipEintr(k: nat, outs: seq<Io>)
    ensures FirstNonEintr(seq(k, _ => Fail(EINTR)) + outs) == FirstNonEintr(outs)
    decreases k
  {
    var s := seq(k, _ => Fail(EINTR)) + outs;
    if k > 0 {
      assert s[0] == Fail(EINTR);
      assert s[1..] == seq(k - 1, _ => Fail(EINTR)) + outs;
      SkipEintr(k - 1, outs);
    } else {
      assert s == outs;
    }
  }

  /** accept() retries EINTR without any other effect. */
  lemma AcceptRetriesEintr(w: World, p: ConnRef, maxNcconn: nat, env: AcceptEnv, k: nat)
    requires HasContext(w, p) && Closable(w)
    requires env.made.Some? ==> env.made.value !in w.conns
    requires Constructed(env.blank, ClientRole)
    ensures Accept(w, p, maxNcconn, env.(outs := seq(k, _ => Fail(EINTR)) + env.outs)) ==
            Accept(w, p, maxNcconn, env)
  {
    SkipEintr(k, env.outs);
    match FirstNonEintr(env.outs)
    case None =>
    case Some(Fail(e)) =>
    case Some(Count(sd)) =>
      if env.curCConn < maxNcconn {
        TakeIgnoresOuts(w, sd, env, seq(k, _ => Fail(EINTR)) + env.outs);
      }
  }

  /** Taking a connection does not look at accept(2)'s outcomes. */
  lemma TakeIgnoresOuts(w: World, sd: nat, env: AcceptEnv, outs: seq<Io>)
    requires w.pool.hasCtx && Closable(w)
    requires env.made.Some? ==> env.made.value !in w.conns
    requires Constructed(env.blank, ClientRole)
    ensures Take(w, sd, env.(outs := outs)) == Take(w, sd, env)
  {
    var (w1, o) := AllocConn(w, CPool, env.made, env.blank, ClientRole);
    if o.Some? {
      var w2 := Adopt(w1, o.value, sd);
      assert Admit(w2, o.value, env.(outs := outs)) == Admit(w2, o.value, env);
    }
  }

  /** A socket with nothing to accept: OK with recv_ready cleared for the
      not-ready errors, ERROR with nothing changed for any other. */
  lemma AcceptFailure(w: World, p: ConnRef, maxNcconn: nat, env: AcceptEnv, e: int)
    requires HasContext(w, p) && Closable(w)
    requires env.made.Some? ==> env.made.value !in w.conns
    requires Constructed(env.blank, ClientRole)
    requires FirstNonEintr(env.outs) == Some(Fail(e))
    ensures var r := Accept(w, p, maxNcconn, env).value;
      r.dropped.None? &&
      (NotReady(e) ==> r.status == Ok &&
                       r.w == WithConn(w, p, w.conns[p].(io := w.conns[p].io.(recvReady := false)))) &&
      (!NotReady(e) ==> r.status == Error && r.w == w)
  {
  }

  /** At the client limit the accepted descriptor is closed at once and
      nothing else happens. */
  lemma AcceptAtLimit(w: World, p: ConnRef, maxNcconn: nat, env: AcceptEnv, sd: nat)
    requires HasContext(w, p) && Closable(w)
    requires env.made.Some? ==> env.made.value !in w.conns
    requires Constructed(env.blank, ClientRole)
    requires FirstNonEintr(env.outs) == Some(Count(sd)) && env.curCConn >= maxNcconn
    ensures Accept(w, p, maxNcconn, env) == Some(Accepted(Ok, w, Some(sd)))
  {
  }

  /** With no connection to be had, the descriptor is closed and the
      result is ENOMEM; no connection is reffed. */
  lemma AcceptWithoutConn(w: World, p: ConnRef, maxNcconn: nat, env: AcceptEnv, sd: nat)
    requires HasContext(w, p) && Closable(w)
    requires env.made.None? && w.cPool.free == [] && Constructed(env.blank, ClientRole)
    requires FirstNonEintr(env.outs) == Some(Count(sd)) && env.curCConn < maxNcconn
    ensures var r := Accept(w, p, maxNcconn, env).value;
      r.status == NoMem && r.dropped == Some(sd) && r.w.conns == w.conns && r.w.pool == w.pool
  {
  }

  /** Below the limit, with every step succeeding, the client taking the
      descriptor is owned by the pool, queued on it, and registered for
      both directions. */
  lemma AcceptAdmits(w: World, p: ConnRef, maxNcconn: nat, env: AcceptEnv, sd: nat)
    requires HasContext(w, p) && Closable(w)
    requires env.made.Some? ==> env.made.value !in w.conns
    requires Constructed(env.blank, ClientRole)
    requires FirstNonEintr(env.outs) == Some(Count(sd)) && env.curCConn < maxNcconn
    requires Taker(w, env).Some? && env.nonblock >= 0 && env.addConn >= 0
    ensures var r := Accept(w, p, maxNcconn, env).value; var c := Taker(w, env).value;
      r.status == Ok && r.dropped.None? && c in r.w.conns &&
      r.w.conns[c].io.sd == sd && r.w.conns[c].owner == Some(PoolOwner) &&
      r.w.conns[c].io.recvActive && r.w.conns[c].io.sendActive &&
      r.w.pool == w.pool.(ncConn := U32(w.pool.ncConn + 1), cConnQ := w.pool.cConnQ + [c])
  {
    assert Accept(w, p, maxNcconn, env) == Some(Take(w, sd, env));
    TakeAdmits(w, sd, env);
  }

  /** The taking step of AcceptAdmits. */
  lemma TakeAdmits(w: World, sd: nat, env: AcceptEnv)
    requires w.pool.hasCtx && Closable(w)
    requires env.made.Some? ==> env.made.value !in w.conns
    requires Constructed(env.blank, ClientRole)
    requires Taker(w, env).Some? && env.nonblock >= 0 && env.addConn >= 0
    ensures var r := Take(w, sd, env); var c := Taker(w, env).value;
      r.status == Ok && r.dropped.None? && c in r.w.conns &&
      r.w.conns[c].io.sd == sd && r.w.conns[c].owner == Some(PoolOwner) &&
      r.w.conns[c].io.recvActive && r.w.conns[c].io.sendActive &&
      r.w.pool == w.pool.(ncConn := U32(w.pool.ncConn + 1), cConnQ := w.pool.cConnQ + [c])
  {
    var (w1, o) := AllocConn(w, CPool, env.made, env.blank, ClientRole);
    var c := o.value;
    assert c == Taker(w, env).value;
    var w2 := Adopt(w1, c, sd);
    var io := Epoll.AddConn(w2.conns[c].io, EventRead | EventWrite, env.addConn).1;
    var w3 := WithConn(w2, c, w2.conns[c].(io := io));
    assert Admit(w2, c, env) == (Ok, w3);
    assert Take(w, sd, env) == Accepted(Ok, w3, None);
    assert w3.pool == w2.pool && w3.conns[c].io == io;
  }

  /** A failed non-blocking switch closes the new client again: its status
      is returned and the client is back in the client pool, unowned. */
  lemma AcceptUndone(w: World, p: ConnRef, maxNcconn: nat, env: AcceptEnv, sd: nat)
    requires HasContext(w, p) && Closable(w)
    requires env.made.Some? ==> env.made.value !in w.conns
    requires Constructed(env.blank, ClientRole)
    requires FirstNonEintr(env.outs) == Some(Count(sd)) && env.curCConn < maxNcconn
    requires Taker(w, env).Some? && env.nonblock < 0
    ensures var r := Accept(w, p, maxNcconn, env).value; var c := Taker(w, env).value;
      r.status == env.nonblock && r.dropped.None? &&
      c in r.w.conns && r.w.conns[c].owner.None? && r.w.conns[c].io.sd < 0 &&
      r.w.cPool.free == AllocConn(w, CPool, env.made, env.blank, ClientRole).0.cPool.free + [c]
  {
  }

  // ------------------------------------------------------------ recvMsg

  /** A connection record whose requests and message being received are
      those of `x`, or which holds none. */
  predicate QueuesFrom(y: Conn, x: Conn) {
    y.omsgQ == x.omsgQ && (y.rmsg == x.rmsg || y.rmsg.None?)
  }

  /** Closability survives anything that keeps the set of messages, keeps
      or clears each message's peer, keeps or empties each connection's
      queues, and frees only existing connections. */
  lemma ClosableFrame(w: World, r: World)
    requires Closable(w) && ConnsIn(r, r.cPool.free)
    requires r.msgs.Keys == w.msgs.Keys
    requires forall x :: x in w.msgs ==> r.msgs[x].peer == w.msgs[x].peer || r.msgs[x].peer.None?
    requires forall c :: c in r.conns ==>
      (c in w.conns && QueuesFrom(r.conns[c], w.conns[c])) || (r.conns[c].omsgQ == [] && r.conns[c].rmsg.None?)
    ensures Closable(r)
  {
    forall c | c in r.conns
      ensures PeersIn(r, r.conns[c].omsgQ)
      ensures r.conns[c].rmsg.Some? ==> PeerOk(r, r.conns[c].rmsg.value)
    {
      if c in w.conns && QueuesFrom(r.conns[c], w.conns[c]) {
        var q := w.conns[c].omsgQ;
        forall i | 0 <= i < |q|
          ensures PeerOk(r, q[i])
        {
          assert PeerOk(w, q[i]);
        }
        if r.conns[c].rmsg.Some? {
          assert PeerOk(w, w.conns[c].rmsg.value);
        }
      }
    }
  }

  /** Closing a client keeps the world closable and frees nothing but
      that client. */
  lemma CloseKeepsClosable(w: World, c: ConnRef)
    requires HasContext(w, c) && Closable(w)
    ensures var r := Client.Close(w, c);
      Closable(r) && r.conns.Keys == w.conns.Keys && r.pool.hasCtx == w.pool.hasCtx &&
      (forall d :: d in w.conns && d != c ==> r.conns[d] == w.conns[d]) &&
      r.cPool.free == w.cPool.free + [c]
  {
    var r := Client.Close(w, c);
    Client.CloseKeepsLinks(w, c);
    Client.CloseKeepsOthers(w, c);
    forall x | x in w.msgs
      ensures r.msgs[x].peer == w.msgs[x].peer || r.msgs[x].peer.None?
    {
      assert Client.SameButFreed(w.msgs[x], r.msgs[x]);
    }
    ClosableFrame(w, r);
  }

  /** Admitting keeps the world closable, touches no other connection,
      and frees nothing but the client itself. */
  lemma AdmitKeeps(w: World, c: ConnRef, env: AcceptEnv)
    requires HasContext(w, c) && Closable(w)
    ensures var r := Admit(w, c, env).1;
      Closable(r) && r.conns.Keys == w.conns.Keys && r.pool.hasCtx == w.pool.hasCtx &&
      (forall d :: d in w.conns && d != c ==> r.conns[d] == w.conns[d]) &&
      (r.cPool.free == w.cPool.free || r.cPool.free == w.cPool.free + [c])
  {
    if env.nonblock < 0 {
      CloseKeepsClosable(w, c);
    } else {
      var w3 := WithConn(w, c, w.conns[c].(io := Epoll.AddConn(w.conns[c].io, EventRead | EventWrite, env.addConn).1));
      ClosableFrame(w, w3);
      if env.addConn < 0 {
        CloseKeepsClosable(w3, c);
      }
    }
  }

  /** What the accept loop keeps: the proxy owned and in its context, the
      world closable, and the proxy outside the client pool. */
  ghost predicate LoopOk(w: World, p: ConnRef) {
    HasContext(w, p) && Closable(w) && p !in w.cPool.free
  }

  /** One accept keeps the loop's invariant, adds no connection but the
      new one, and leaves the proxy as it was unless it cleared its
      recv_ready. */
  lemma AcceptKeeps(w: World, p: ConnRef, maxNcconn: nat, env: AcceptEnv)
    requires LoopOk(w, p)
    requires env.made.Some? ==> env.made.value !in w.conns
    requires Constructed(env.blank, ClientRole)
    requires Accept(w, p, maxNcconn, env).Some?
    ensures var r := Accept(w, p, maxNcconn, env).value.w;
      LoopOk(r, p) &&
      (forall d :: d in r.conns ==> d in w.conns || Some(d) == env.made) &&
      (r.conns[p].io.recvReady ==> r.conns[p] == w.conns[p])
  {
    var r := Accept(w, p, maxNcconn, env).value.w;
    match FirstNonEintr(env.outs)
    case Some(Fail(e)) =>
      if NotReady(e) {
        ClosableFrame(w, r);
      }
    case Some(Count(sd)) =>
      if env.curCConn < maxNcconn {
        TakeKeeps(w, p, sd, env);
      }
  }

  /** Taking a connection keeps the loop's invariant, adds no connection
      but the new one, and leaves the proxy as it was. */
  lemma TakeKeeps(w: World, p: ConnRef, sd: nat, env: AcceptEnv)
    requires LoopOk(w, p)
    requires env.made.Some? ==> env.made.value !in w.conns
    requires Constructed(env.blank, ClientRole)
    ensures var r := Take(w, sd, env).w;
      LoopOk(r, p) && (forall d :: d in r.conns ==> d in w.conns || Some(d) == env.made) &&
      r.conns[p] == w.conns[p]
  {
    var (w1, o) := AllocConn(w, CPool, env.made, env.blank, ClientRole);
    AllocKeepsLoop(w, p, env);
    if o.Some? {
      var c := o.value;
      AdoptAdmitKeeps(w1, p, c, sd, env);
      assert Take(w, sd, env).w == Admit(Adopt(w1, c, sd), c, env).1;
    }
  }

  /** Taking a connection from the client pool keeps the loop's
      invariant, and the connection taken is not the proxy. */
  lemma AllocKeepsLoop(w: World, p: ConnRef, env: AcceptEnv)
    requires LoopOk(w, p)
    requires env.made.Some? ==> env.made.value !in w.conns
    requires Constructed(env.blank, ClientRole)
    ensures var (w1, o) := AllocConn(w, CPool, env.made, env.blank, ClientRole);
      LoopOk(w1, p) && w1.conns[p] == w.conns[p] &&
      (forall d :: d in w1.conns ==> d in w.conns || Some(d) == env.made) &&
      (o.Some? ==> o.value in w1.conns && o.value != p)
  {
    var (w1, o) := AllocConn(w, CPool, env.made, env.blank, ClientRole);
    assert ConnsIn(w1, w1.cPool.free) && p !in w1.cPool.free by {
      if w.cPool.free != [] {
        assert forall i :: 0 <= i < |w1.cPool.free| ==> w1.cPool.free[i] == w.cPool.free[i + 1];
      }
    }
    ClosableFrame(w, w1);
    if o.Some? && w.cPool.free != [] {
      assert o.value == w.cPool.free[0];
    }
  }

  /** Adopting and admitting a client other than the proxy keeps the
      loop's invariant, adds no connection, and leaves the proxy as it
      was. */
  lemma AdoptAdmitKeeps(w: World, p: ConnRef, c: ConnRef, sd: nat, env: AcceptEnv)
    requires LoopOk(w, p) && c in w.conns && c != p
    ensures var w2 := Adopt(w, c, sd);
      HasContext(w2, c) && PeersIn(w2, w2.conns[c].omsgQ) &&
      (w2.conns[c].rmsg.Some? ==> PeerOk(w2, w2.conns[c].rmsg.value))
    ensures var r := Admit(Adopt(w, c, sd), c, env).1;
      LoopOk(r, p) && r.conns.Keys == w.conns.Keys && r.conns[p] == w.conns[p]
  {
    var w2 := Adopt(w, c, sd);
    assert PeersIn(w, w.conns[c].omsgQ);
    ClosableFrame(w, w2);
    AdmitKeeps(w2, c, env);
  }

  /** The references `new` would give are fresh and distinct, and each
      blank is a just-constructed client. */
  ghost predicate FreshEnvs(w: World, envs: seq<AcceptEnv>) {
    (forall i :: 0 <= i < |envs| ==> Constructed(envs[i].blank, ClientRole)) &&
    (forall i :: 0 <= i < |envs| && envs[i].made.Some? ==> envs[i].made.value !in w.conns) &&
    (forall i, j :: 0 <= i < j < |envs| && envs[i].made.Some? ==> envs[j].made != envs[i].made)
  }

  /** The do-while of recvMsg: accept until a call fails or clears
      recv_ready. The i-th call meets `envs[i]`; None means the calls or
      some call's outcomes ran out first. */
  function AcceptLoop(w: World, p: ConnRef, maxNcconn: nat, envs: seq<AcceptEnv>): (r: Option<(int, World)>)
    requires LoopOk(w, p) && FreshEnvs(w, envs)
    ensures r.Some? && r.value.0 == Ok ==> p in r.value.1.conns && !r.value.1.conns[p].io.recvReady
    ensures r.Some? ==> LoopOk(r.value.1, p)
    decreases |envs|
  {
    if envs == [] then None
    else
      match Accept(w, p, maxNcconn, envs[0])
      case None => None
      case Some(a) =>
        AcceptKeeps(w, p, maxNcconn, envs[0]);
        if a.status != Ok then Some((a.status, a.w))
        else if !a.w.conns[p].io.recvReady then Some((Ok, a.w))
        else
          assert FreshEnvs(a.w, envs[1..]) by {
            forall i | 0 <= i < |envs[1..]| && envs[1..][i].made.Some?
              ensures envs[1..][i].made.value !in a.w.conns
            {
              assert envs[1..][i] == envs[i + 1];
            }
          }
          AcceptLoop(a.w, p, maxNcconn, envs[1..])
  }

  /** recvMsg(): recv_ready is set and the accept loop runs. It ends with
      OK only once the listening socket has reported itself not ready,
      and otherwise with the first status that was not OK. */
  function RecvMsg(w: World, p: ConnRef, maxNcconn: nat, envs: seq<AcceptEnv>): (r: Option<(int, World)>)
    requires LoopOk(w, p) && FreshEnvs(w, envs)
    ensures r.Some? && r.value.0 == Ok ==> p in r.value.1.conns && !r.value.1.conns[p].io.recvReady
    ensures r.Some? ==> LoopOk(r.value.1, p)
  {
    var w1 := WithConn(w, p, w.conns[p].(io := w.conns[p].io.(recvReady := true)));
    ClosableFrame(w, w1);
    AcceptLoop(w1, p, maxNcconn, envs)
  }

  /** The first accept that does not return OK ends recvMsg with its
      status. */
  lemma RecvMsgStopsAtFailure(w: World, p: ConnRef, maxNcconn: nat, envs: seq<AcceptEnv>)
    requires LoopOk(w, p) && FreshEnvs(w, envs) && envs != []
    ensures var w1 := WithConn(w, p, w.conns[p].(io := w.conns[p].io.(recvReady := true)));
      LoopOk(w1, p) &&
      var a := Accept(w1, p, maxNcconn, envs[0]);
      a.Some? && a.value.status != Ok ==> RecvMsg(w, p, maxNcconn, envs) == Some((a.value.status, a.value.w))
  {
    var w1 := WithConn(w, p, w.conns[p].(io := w.conns[p].io.(recvReady := true)));
    ClosableFrame(w, w1);
  }

  /** At the client limit accept leaves recv_ready set, so the loop goes
      on to the next accepted descriptor with nothing changed. */
  lemma LimitKeepsAccepting(w: World, p: ConnRef, maxNcconn: nat, envs: seq<AcceptEnv>, sd: nat)
    requires LoopOk(w, p) && FreshEnvs(w, envs) && |envs| >= 2 && w.conns[p].io.recvReady
    requires FirstNonEintr(envs[0].outs) == Some(Count(sd)) && envs[0].curCConn >= maxNcconn
    ensures FreshEnvs(w, envs[1..])
    ensures AcceptLoop(w, p, maxNcconn, envs) == AcceptLoop(w, p, maxNcconn, envs[1..])
  {
    assert FreshEnvs(w, envs[1..]) by {
      forall i | 0 <= i < |envs[1..]| && envs[1..][i].made.Some?
        ensures envs[1..][i].made.value !in w.conns
      {
        assert envs[1..][i] == envs[i + 1];
      }
    }
  }
}
