/** NcClientConn (nc_client.h, nc_client.cpp): the connection a client
    opened to the proxy. It reads requests, forwards them or answers them
    locally, and keeps the forwarded ones on its outstanding queue until
    their replies have been sent back. */
module Client {
  import opened Common
  import opened Queue
  import opened ObjectPool
  import opened Event
  import opened Pools
  import opened Store
  import Epoll
  import RbTree
  import Servers
  import Message

  // ------------------------------------------------------- ref / unref

  /** NcClientConn::ref(pool): the connection belongs to the pool, its
      family, address length and address are cleared, and the pool counts
      it (32-bit) and queues it. */
  function Ref(w: World, c: ConnRef): (r: World)
    requires c in w.conns
    ensures r.pool == w.pool.(ncConn := U32(w.pool.ncConn + 1), cConnQ := Push(w.pool.cConnQ, c))
    ensures var x := w.conns[c];
      r == w.(pool := r.pool,
              conns := w.conns[c := x.(owner := Some(PoolOwner), io := x.io.(family := 0, addrlen := 0, addr := None))])
  {
    var x := w.conns[c];
    var p := w.pool;
    w.(pool := p.(ncConn := U32(p.ncConn + 1), cConnQ := Push(p.cConnQ, c)),
       conns := w.conns[c := x.(owner := Some(PoolOwner), io := x.io.(family := 0, addrlen := 0, addr := None))])
  }

  /** NcClientConn::unref: no owner, one client fewer and the connection
      leaves the pool's queue. A zero count is only logged, so it wraps. */
  function Unref(w: World, c: ConnRef): (r: World)
    requires c in w.conns
    ensures r.pool == w.pool.(ncConn := U32(w.pool.ncConn - 1), cConnQ := Remove(w.pool.cConnQ, c))
    ensures r == w.(pool := r.pool, conns := w.conns[c := w.conns[c].(owner := None)])
  {
    var p := w.pool;
    w.(pool := p.(ncConn := U32(p.ncConn - 1), cConnQ := Remove(p.cConnQ, c)),
       conns := w.conns[c := w.conns[c].(owner := None)])
  }

  /** unref undoes ref on the pool's bookkeeping. */
  lemma RefThenUnref(w: World, c: ConnRef)
    requires c in w.conns && c !in w.pool.cConnQ && w.pool.ncConn + 1 < Two32
    ensures var r := Unref(Ref(w, c), c);
      r.pool == w.pool && r.conns[c].owner.None? && r.msgs == w.msgs
  {
    RemoveUndoesPush(w.pool.cConnQ, c);
  }

  /** Unref on a pool that counts no client leaves the counter at its
      largest 32-bit value. */
  lemma UnrefAtZeroWraps(w: World, c: ConnRef)
    requires c in w.conns && w.pool.ncConn == 0
    ensures Unref(w, c).pool.ncConn == Two32 - 1
  {
    assert U32(-1) == Two32 - 1 by {
      assert (Two32 - 1) - (-1) == Two32;
    }
  }

  // --------------------------------------------------------------- close

  /** `b` is record `a` after frees: the identity, length, position, error
      and request flags are kept; the peer and the deadline key and data
      are kept or cleared, the segments kept or emptied, and a swallow
      mark is never lost. */
  predicate SameButFreed(a: Msg, b: Msg) {
    b.id == a.id && b.mlen == a.mlen && b.startTs == a.startTs &&
    b.pos == a.pos && b.err == a.err &&
    b.error == a.error && b.quit == a.quit && b.noreply == a.noreply &&
    b.noforward == a.noforward && b.done == a.done && b.proto == a.proto &&
    (b.peer == a.peer || b.peer.None?) && (b.key == a.key || b.key == 0) &&
    (b.data == a.data || b.data.None?) && (b.mbufs == a.mbufs || b.mbufs == []) &&
    (a.swallow ==> b.swallow)
  }

  /** SameButFreed carries over two maps of records. */
  lemma SameButFreedTrans(a: map<MsgRef, Msg>, b: map<MsgRef, Msg>, c: map<MsgRef, Msg>)
    requires a.Keys == b.Keys == c.Keys
    requires forall x :: x in a ==> SameButFreed(a[x], b[x])
    requires forall x :: x in b ==> SameButFreed(b[x], c[x])
    ensures forall x :: x in a ==> SameButFreed(a[x], c[x])
  {
    forall x | x in a
      ensures SameButFreed(a[x], c[x])
    {
      assert SameButFreed(a[x], b[x]);
      assert SameButFreed(b[x], c[x]);
    }
  }

  /** Frees keep each record's peer or clear it, so the peers of a queue
      still exist afterwards. */
  lemma PeersInAfter(w: World, r: World, q: seq<MsgRef>)
    requires PeersIn(w, q) && r.msgs.Keys == w.msgs.Keys
    requires forall x :: x in w.msgs ==> SameButFreed(w.msgs[x], r.msgs[x])
    ensures PeersIn(r, q)
  {
    forall i | 0 <= i < |q|
      ensures PeerOk(r, q[i])
    {
      assert PeerOk(w, q[i]);
      assert SameButFreed(w.msgs[q[i]], r.msgs[q[i]]);
    }
  }

  /** The default freeMsg of the client, force = true, on an owned
      connection: the peer, if any, is detached and goes back to the
      message pool first, `m` leaves the deadline tree, then `m` goes back
      too (FreeForcedIsFreeMsg). */
  function FreeForced(w: World, m: MsgRef): (r: World)
    requires PeerOk(w, m)
    ensures r == w.(msgs := r.msgs, msgPool := r.msgPool, mbufPool := r.mbufPool, tree := r.tree)
    ensures r.msgs.Keys == w.msgs.Keys
    ensures r.msgPool.free == w.msgPool.free + PeerSeq(w.msgs[m].peer) + [m]
    ensures r.tree == RbTree.RemoveAsWritten(w.tree, m)
    ensures r.msgs[m].mbufs == [] && r.msgs[m].peer.None?
    ensures forall x :: x in w.msgs && x != m && Some(x) != w.msgs[m].peer ==> r.msgs[x] == w.msgs[x]
  {
    FreeOwn(ForceDetach(w, m), m)
  }

  /** FreeForced is freeMsg(msg) with its default force on a connection
      that has a context. */
  lemma FreeForcedIsFreeMsg(w: World, c: ConnRef, m: MsgRef)
    requires HasContext(w, c) && PeerOk(w, m)
    ensures FreeMsg(w, c, m, true) == FreeForced(w, m)
  {
  }

  /** A forced free changes records only as SameButFreed allows. */
  lemma FreeForcedSame(w: World, m: MsgRef)
    requires PeerOk(w, m)
    ensures forall x :: x in w.msgs ==> SameButFreed(w.msgs[x], FreeForced(w, m).msgs[x])
  {
    var w1 := ForceDetach(w, m);
    var r := FreeOwn(w1, m);
    var o := w.msgs[m].peer;
    forall x | x in w.msgs
      ensures SameButFreed(w.msgs[x], r.msgs[x])
    {
      if x == m {
        ForceDetachOwn(w, m);
        assert r.msgs[m] == w1.msgs[m].(mbufs := []);
      } else if o == Some(x) {
        ForceDetachPeer(w, m);
        assert r.msgs[x] == w1.msgs[x];
      } else {
        assert r.msgs[x] == w.msgs[x];
      }
    }
  }

  /** One step of the outstanding-queue walk: a done request is freed
      (forced), any other is marked swallow. */
  function DiscardOne(w: World, m: MsgRef): (r: World)
    requires PeerOk(w, m)
    ensures r == w.(msgs := r.msgs, msgPool := r.msgPool, mbufPool := r.mbufPool, tree := r.tree)
    ensures r.msgs.Keys == w.msgs.Keys
    ensures forall x :: x in w.msgs && x != m && Some(x) != w.msgs[m].peer ==> r.msgs[x] == w.msgs[x]
    ensures w.msgs[m].done ==>
              r.msgs[m].mbufs == [] && r.msgPool.free == w.msgPool.free + PeerSeq(w.msgs[m].peer) + [m]
    ensures !w.msgs[m].done ==>
              r.msgs == w.msgs[m := w.msgs[m].(swallow := true)] && r.msgPool == w.msgPool && r.tree == w.tree
  {
    if w.msgs[m].done then FreeForced(w, m) else WithMsg(w, m, w.msgs[m].(swallow := true))
  }

  /** A step changes records only as SameButFreed allows. */
  lemma DiscardOneSame(w: World, m: MsgRef)
    requires PeerOk(w, m)
    ensures forall x :: x in w.msgs ==> SameButFreed(w.msgs[x], DiscardOne(w, m).msgs[x])
  {
    if w.msgs[m].done {
      FreeForcedSame(w, m);
    }
  }

  /** The outstanding-queue walk of close: a done request is freed
      (forced, so its reply goes too); any other is marked swallow, so its
      reply will be dropped. The queue itself is left as it is; the
      message pool only grows, and on a queue that holds each request
      once and none of their replies it grows by exactly Released. */
  function Discard(w: World, q: seq<MsgRef>): (r: World)
    requires PeersIn(w, q)
    decreases |q|
    ensures r == w.(msgs := r.msgs, msgPool := r.msgPool, mbufPool := r.mbufPool, tree := r.tree)
    ensures r.msgs.Keys == w.msgs.Keys
    ensures forall x :: x in w.msgs ==> SameButFreed(w.msgs[x], r.msgs[x])
    ensures w.msgPool.free <= r.msgPool.free
    ensures Separate(w.msgs, q) ==> r.msgPool.free == w.msgPool.free + Released(w.msgs, q)
  {
    if q == [] then w
    else
      var w1 := DiscardOne(w, q[0]);
      DiscardOneSame(w, q[0]);
      assert PeersIn(w, q[1..]) by {
        assert forall i :: 0 <= i < |q[1..]| ==> q[1..][i] == q[i + 1];
      }
      PeersInAfter(w, w1, q[1..]);
      var r := Discard(w1, q[1..]);
      SameButFreedTrans(w.msgs, w1.msgs, r.msgs);
      DiscardPoolStep(w, q, w1, r);
      r
  }

  /** The walk is the first step followed by the walk of the rest. */
  lemma DiscardStep(w: World, q: seq<MsgRef>)
    requires PeersIn(w, q) && q != []
    ensures PeersIn(DiscardOne(w, q[0]), q[1..])
    ensures Discard(w, q) == Discard(DiscardOne(w, q[0]), q[1..])
  {
    var w1 := DiscardOne(w, q[0]);
    DiscardOneSame(w, q[0]);
    assert PeersIn(w, q[1..]) by {
      assert forall i :: 0 <= i < |q[1..]| ==> q[1..][i] == q[i + 1];
    }
    PeersInAfter(w, w1, q[1..]);
  }

  /** The queue holds each request once and none of their peers, as the
      outstanding queue of a client does. */
  ghost predicate Separate(msgs: map<MsgRef, Msg>, q: seq<MsgRef>) {
    (forall i, j :: 0 <= i < j < |q| ==> q[i] != q[j]) &&
    (forall i :: 0 <= i < |q| && q[i] in msgs && msgs[q[i]].peer.Some? ==> msgs[q[i]].peer.value !in q)
  }

  /** What the walk gives back to the message pool, read off the records
      before the walk: for each done request in queue order its reply, if
      it has one, then the request. */
  function Released(msgs: map<MsgRef, Msg>, q: seq<MsgRef>): seq<MsgRef>
    requires forall i :: 0 <= i < |q| ==> q[i] in msgs
  {
    if q == [] then []
    else
      (if msgs[q[0]].done then PeerSeq(msgs[q[0]].peer) + [q[0]] else []) + Released(msgs, q[1..])
  }

  /** Released reads only the done flags and peers of the queue. */
  lemma {:induction false} ReleasedFrame(a: map<MsgRef, Msg>, b: map<MsgRef, Msg>, q: seq<MsgRef>)
    requires forall i :: 0 <= i < |q| ==> q[i] in a && q[i] in b
    requires forall i :: 0 <= i < |q| ==> a[q[i]].done == b[q[i]].done && a[q[i]].peer == b[q[i]].peer
    ensures Released(a, q) == Released(b, q)
  {
    if q != [] {
      ReleasedFrame(a, b, q[1..]);
    }
  }

  /** Released holds every done request of the queue. */
  lemma {:induction false} ReleasedHoldsDone(msgs: map<MsgRef, Msg>, q: seq<MsgRef>, i: nat)
    requires forall k :: 0 <= k < |q| ==> q[k] in msgs
    requires i < |q| && msgs[q[i]].done
    ensures q[i] in Released(msgs, q)
  {
    if i > 0 {
      ReleasedHoldsDone(msgs, q[1..], i - 1);
    }
  }

  /** On such a queue the first step leaves the records of the rest as
      they were, so the rest is still such a queue. */
  lemma DiscardOneKeepsRest(w: World, q: seq<MsgRef>)
    requires PeersIn(w, q) && Separate(w.msgs, q) && q != []
    ensures var w1 := DiscardOne(w, q[0]); var t := q[1..];
      (forall i :: 0 <= i < |t| ==> t[i] in w.msgs && t[i] in w1.msgs && w1.msgs[t[i]] == w.msgs[t[i]]) &&
      Separate(w1.msgs, t)
  {
    var m := q[0];
    var t := q[1..];
    var w1 := DiscardOne(w, m);
    forall i | 0 <= i < |t|
      ensures t[i] in w.msgs && t[i] in w1.msgs && w1.msgs[t[i]] == w.msgs[t[i]]
    {
      assert t[i] == q[i + 1] && q[0] != q[i + 1];
      assert PeerOk(w, q[i + 1]);
      assert w.msgs[m].peer.Some? ==> w.msgs[m].peer.value != t[i];
    }
    forall i | 0 <= i < |t| && t[i] in w1.msgs && w1.msgs[t[i]].peer.Some?
      ensures w1.msgs[t[i]].peer.value !in t
    {
      assert t[i] == q[i + 1];
    }
  }

  /** The pool growth of the whole walk from that of the walk of the
      rest, `r` being the world that walk leaves. */
  lemma DiscardPoolStep(w: World, q: seq<MsgRef>, w1: World, r: World)
    requires PeersIn(w, q) && q != [] && w1 == DiscardOne(w, q[0])
    requires PeersIn(w1, q[1..])
    requires Separate(w1.msgs, q[1..]) ==> r.msgPool.free == w1.msgPool.free + Released(w1.msgs, q[1..])
    ensures Separate(w.msgs, q) ==> r.msgPool.free == w.msgPool.free + Released(w.msgs, q)
  {
    if Separate(w.msgs, q) {
      var m := q[0];
      var t := q[1..];
      var head := if w.msgs[m].done then PeerSeq(w.msgs[m].peer) + [m] else [];
      var rest := Released(w.msgs, t);
      DiscardOneKeepsRest(w, q);
      ReleasedFrame(w1.msgs, w.msgs, t);
      assert w1.msgPool.free == w.msgPool.free + head;
      assert Released(w.msgs, q) == head + rest;
      ConcatAssoc(w.msgPool.free, head, rest);
    }
  }

  /** The walk leaves alone every message that is neither in the queue
      nor the peer of one in it. */
  lemma {:induction false} DiscardKeepsOthers(w: World, q: seq<MsgRef>, x: MsgRef)
    requires PeersIn(w, q) && x in w.msgs && x !in q
    requires forall i :: 0 <= i < |q| ==> w.msgs[q[i]].peer != Some(x)
    decreases |q|
    ensures Discard(w, q).msgs[x] == w.msgs[x]
  {
    if q != [] {
      DiscardStep(w, q);
      NoPeerAfterStep(w, q, x);
      DiscardKeepsOthers(DiscardOne(w, q[0]), q[1..], x);
    }
  }

  /** A step keeps `x` and no request of the rest gains `x` as peer. */
  lemma NoPeerAfterStep(w: World, q: seq<MsgRef>, x: MsgRef)
    requires PeersIn(w, q) && q != [] && x in w.msgs && x !in q
    requires forall i :: 0 <= i < |q| ==> w.msgs[q[i]].peer != Some(x)
    ensures var w1 := DiscardOne(w, q[0]);
      x in w1.msgs && w1.msgs[x] == w.msgs[x] && x !in q[1..] &&
      forall i :: 0 <= i < |q[1..]| ==> q[1..][i] in w1.msgs && w1.msgs[q[1..][i]].peer != Some(x)
  {
    var w1 := DiscardOne(w, q[0]);
    assert PeerOk(w, q[0]) && w.msgs[q[0]].peer != Some(x);
    DiscardOneSame(w, q[0]);
    forall i | 0 <= i < |q[1..]|
      ensures q[1..][i] in w1.msgs && w1.msgs[q[1..][i]].peer != Some(x)
    {
      assert q[1..][i] == q[i + 1] && PeerOk(w, q[i + 1]);
      assert SameButFreed(w.msgs[q[i + 1]], w1.msgs[q[i + 1]]);
    }
  }

  /** After the walk every request of the queue that was not done is
      marked swallow. */
  lemma {:induction false} DiscardSwallows(w: World, q: seq<MsgRef>, x: MsgRef)
    requires PeersIn(w, q) && x in q && !w.msgs[x].done
    decreases |q|
    ensures Discard(w, q).msgs[x].swallow
  {
    var w1 := DiscardOne(w, q[0]);
    var t := q[1..];
    DiscardStep(w, q);
    DiscardOneSame(w, q[0]);
    assert SameButFreed(w.msgs[x], w1.msgs[x]);
    if x == q[0] {
      assert SameButFreed(w1.msgs[x], Discard(w1, t).msgs[x]);
    } else {
      assert x in t;
      DiscardSwallows(w1, t, x);
    }
  }

  /** After the walk every request of the queue that was done has given
      up its segments. */
  lemma {:induction false} DiscardEmpties(w: World, q: seq<MsgRef>, x: MsgRef)
    requires PeersIn(w, q) && x in q && w.msgs[x].done
    decreases |q|
    ensures Discard(w, q).msgs[x].mbufs == []
  {
    var w1 := DiscardOne(w, q[0]);
    var t := q[1..];
    DiscardStep(w, q);
    DiscardOneSame(w, q[0]);
    assert SameButFreed(w.msgs[x], w1.msgs[x]);
    if x == q[0] {
      assert SameButFreed(w1.msgs[x], Discard(w1, t).msgs[x]);
    } else {
      assert x in t;
      DiscardEmpties(w1, t, x);
    }
  }

  /** The first step of closing an open client: the message being
      received is forgotten and freed (forced). */
  function DropRmsg(w: World, c: ConnRef): (r: World)
    requires HasContext(w, c)
    requires w.conns[c].rmsg.Some? ==> PeerOk(w, w.conns[c].rmsg.value)
    ensures r.conns == w.conns[c := w.conns[c].(rmsg := None)]
    ensures r == w.(conns := r.conns, msgs := r.msgs, msgPool := r.msgPool, mbufPool := r.mbufPool, tree := r.tree)
    ensures r.msgs.Keys == w.msgs.Keys
    ensures var o := w.conns[c].rmsg;
      o.None? ==> r.msgs == w.msgs && r.msgPool == w.msgPool && r.tree == w.tree
    ensures var o := w.conns[c].rmsg;
      o.Some? ==>
        r.msgPool.free == w.msgPool.free + PeerSeq(w.msgs[o.value].peer) + [o.value] &&
        r.tree == RbTree.RemoveAsWritten(w.tree, o.value) &&
        (forall x :: x in w.msgs && x != o.value && Some(x) != w.msgs[o.value].peer ==> r.msgs[x] == w.msgs[x])
  {
    var x := w.conns[c];
    var w0 := WithConn(w, c, x.(rmsg := None));
    if x.rmsg.Some? then FreeForced(w0, x.rmsg.value) else w0
  }

  /** Dropping the message being received changes records only as
      SameButFreed allows, so the outstanding requests and their peers
      are still there. */
  lemma DropRmsgSame(w: World, c: ConnRef)
    requires HasContext(w, c)
    requires w.conns[c].rmsg.Some? ==> PeerOk(w, w.conns[c].rmsg.value)
    ensures forall x :: x in w.msgs ==> SameButFreed(w.msgs[x], DropRmsg(w, c).msgs[x])
    ensures PeersIn(w, w.conns[c].omsgQ) ==> PeersIn(DropRmsg(w, c), w.conns[c].omsgQ)
  {
    var x := w.conns[c];
    if x.rmsg.Some? {
      FreeForcedSame(WithConn(w, c, x.(rmsg := None)), x.rmsg.value);
    }
    if PeersIn(w, x.omsgQ) {
      PeersInAfter(w, DropRmsg(w, c), x.omsgQ);
    }
  }

  /** The last steps of closing an open client: unref, the descriptor
      cleared, the connection back in the client pool. */
  function Release(w: World, c: ConnRef): (r: World)
    requires c in w.conns
    ensures r.pool == w.pool.(ncConn := U32(w.pool.ncConn - 1), cConnQ := Remove(w.pool.cConnQ, c))
    ensures r.conns == w.conns[c := w.conns[c].(owner := None, io := w.conns[c].io.(sd := -1))]
    ensures r.cPool.free == w.cPool.free + [c]
    ensures r.msgs == w.msgs && r.msgPool == w.msgPool
  {
    var w3 := Unref(w, c);
    FreeConn(WithConn(w3, c, w3.conns[c].(io := w3.conns[c].io.(sd := -1))), CPool, c)
  }

  /** The message steps of closing an open client: the message being
      received is dropped, then the outstanding queue walked. */
  function DropAll(w: World, c: ConnRef): (r: World)
    requires HasContext(w, c) && PeersIn(w, w.conns[c].omsgQ)
    requires w.conns[c].rmsg.Some? ==> PeerOk(w, w.conns[c].rmsg.value)
    ensures r.conns == w.conns[c := w.conns[c].(rmsg := None)]
    ensures r.pool == w.pool && r.cPool == w.cPool && r.sPool == w.sPool && r.pPool == w.pPool
  {
    DropRmsgSame(w, c);
    Discard(DropRmsg(w, c), w.conns[c].omsgQ)
  }

  /** Closing a client whose socket is open: the message being received
      is dropped, the outstanding queue walked, the connection released. */
  function CloseOpen(w: World, c: ConnRef): (r: World)
    requires HasContext(w, c) && PeersIn(w, w.conns[c].omsgQ)
    requires w.conns[c].rmsg.Some? ==> PeerOk(w, w.conns[c].rmsg.value)
    ensures c in r.conns
    ensures r.conns[c] == w.conns[c].(owner := None, rmsg := None, io := w.conns[c].io.(sd := -1))
  {
    var w2 := DropAll(w, c);
    var y := w.conns[c].(rmsg := None);
    assert w2.conns[c] == y;
    var r := Release(w2, c);
    assert r.conns[c] == y.(owner := None, io := y.io.(sd := -1));
    r
  }

  /** Closing an open client unrefs it on the pool and returns it to the
      client pool. */
  lemma CloseOpenPools(w: World, c: ConnRef)
    requires HasContext(w, c) && PeersIn(w, w.conns[c].omsgQ)
    requires w.conns[c].rmsg.Some? ==> PeerOk(w, w.conns[c].rmsg.value)
    ensures var r := CloseOpen(w, c);
      r.cPool.free == w.cPool.free + [c] &&
      r.pool == w.pool.(ncConn := U32(w.pool.ncConn - 1), cConnQ := Remove(w.pool.cConnQ, c))
  {
    var w2 := DropAll(w, c);
    assert CloseOpen(w, c) == Release(w2, c);
  }

  /** When the outstanding queue holds neither the message being received
      nor its peer, dropping it leaves the queue's records as they were. */
  lemma DropRmsgKeepsQueue(w: World, c: ConnRef)
    requires HasContext(w, c) && PeersIn(w, w.conns[c].omsgQ)
    requires w.conns[c].rmsg.Some? ==> PeerOk(w, w.conns[c].rmsg.value)
    requires Separate(w.msgs, w.conns[c].omsgQ)
    requires var o := w.conns[c].rmsg;
      o.Some? ==> o.value !in w.conns[c].omsgQ &&
                  (w.msgs[o.value].peer.Some? ==> w.msgs[o.value].peer.value !in w.conns[c].omsgQ)
    ensures var w1 := DropRmsg(w, c); var q := w.conns[c].omsgQ;
      PeersIn(w1, q) && Separate(w1.msgs, q) && Released(w1.msgs, q) == Released(w.msgs, q)
  {
    var q := w.conns[c].omsgQ;
    var o := w.conns[c].rmsg;
    var w1 := DropRmsg(w, c);
    DropRmsgSame(w, c);
    forall i | 0 <= i < |q|
      ensures q[i] in w.msgs && q[i] in w1.msgs && w1.msgs[q[i]] == w.msgs[q[i]]
    {
      assert PeerOk(w, q[i]);
      assert o.Some? ==> o.value != q[i] && Some(q[i]) != w.msgs[o.value].peer;
    }
    ReleasedFrame(w1.msgs, w.msgs, q);
  }

  /** What closing an open client gives back to the message pool: the
      message being received with its peer, then, for each done
      outstanding request in queue order, its reply and the request —
      when the outstanding queue holds each request once and neither the
      replies nor the message being received. */
  lemma CloseOpenFrees(w: World, c: ConnRef)
    requires HasContext(w, c) && PeersIn(w, w.conns[c].omsgQ)
    requires w.conns[c].rmsg.Some? ==> PeerOk(w, w.conns[c].rmsg.value)
    requires Separate(w.msgs, w.conns[c].omsgQ)
    requires var o := w.conns[c].rmsg;
      o.Some? ==> o.value !in w.conns[c].omsgQ &&
                  (w.msgs[o.value].peer.Some? ==> w.msgs[o.value].peer.value !in w.conns[c].omsgQ)
    ensures var r := CloseOpen(w, c); var o := w.conns[c].rmsg;
      var pre := if o.Some? then PeerSeq(w.msgs[o.value].peer) + [o.value] else [];
      r.msgPool.free == w.msgPool.free + pre + Released(w.msgs, w.conns[c].omsgQ)
  {
    DropAllFrees(w, c);
    assert CloseOpen(w, c).msgPool == DropAll(w, c).msgPool;
  }

  /** The message steps of close give back what CloseOpenFrees states. */
  lemma DropAllFrees(w: World, c: ConnRef)
    requires HasContext(w, c) && PeersIn(w, w.conns[c].omsgQ)
    requires w.conns[c].rmsg.Some? ==> PeerOk(w, w.conns[c].rmsg.value)
    requires Separate(w.msgs, w.conns[c].omsgQ)
    requires var o := w.conns[c].rmsg;
      o.Some? ==> o.value !in w.conns[c].omsgQ &&
                  (w.msgs[o.value].peer.Some? ==> w.msgs[o.value].peer.value !in w.conns[c].omsgQ)
    ensures var o := w.conns[c].rmsg;
      var pre := if o.Some? then PeerSeq(w.msgs[o.value].peer) + [o.value] else [];
      DropAll(w, c).msgPool.free == w.msgPool.free + pre + Released(w.msgs, w.conns[c].omsgQ)
  {
    var q := w.conns[c].omsgQ;
    var o := w.conns[c].rmsg;
    var w1 := DropRmsg(w, c);
    assert w1.msgPool.free == w.msgPool.free + (if o.Some? then PeerSeq(w.msgs[o.value].peer) + [o.value] else []);
    DropRmsgKeepsQueue(w, c);
    assert DropAll(w, c).msgPool.free == w1.msgPool.free + Released(w1.msgs, q);
  }

  /** Closing a client without a socket: it is only unreffed and given
      back to the client pool. */
  function CloseShut(w: World, c: ConnRef): (r: World)
    requires c in w.conns
    ensures c in r.conns && r.conns[c] == w.conns[c].(owner := None)
    ensures r.cPool.free == w.cPool.free + [c]
    ensures r.pool == w.pool.(ncConn := U32(w.pool.ncConn - 1), cConnQ := Remove(w.pool.cConnQ, c))
    ensures r.msgs == w.msgs && r.msgPool == w.msgPool
  {
    FreeConn(Unref(w, c), CPool, c)
  }

  /** NcClientConn::close. Without a socket the connection is only
      unreffed and returned to the client pool. Otherwise the message
      being received is dropped and freed, the outstanding queue is
      walked by Discard, and then the connection is unreffed, its
      descriptor cleared and the connection returned to the pool. The
      status of ::close is ignored. */
  function Close(w: World, c: ConnRef): (r: World)
    requires HasContext(w, c) && PeersIn(w, w.conns[c].omsgQ)
    requires w.conns[c].rmsg.Some? ==> PeerOk(w, w.conns[c].rmsg.value)
    ensures c in r.conns && r.conns[c].owner.None? && r.conns[c].io.sd < 0
    ensures r.cPool.free == w.cPool.free + [c]
    ensures r.pool == w.pool.(ncConn := U32(w.pool.ncConn - 1), cConnQ := Remove(w.pool.cConnQ, c))
    ensures r.conns[c].omsgQ == w.conns[c].omsgQ && r.conns[c].imsgQ == w.conns[c].imsgQ
    ensures w.conns[c].io.sd < 0 ==>
              r.msgs == w.msgs && r.msgPool == w.msgPool && r.conns[c] == w.conns[c].(owner := None)
    ensures w.conns[c].io.sd >= 0 ==> r == CloseOpen(w, c)
  {
    if w.conns[c].io.sd < 0 then CloseShut(w, c)
    else CloseOpenPools(w, c); CloseOpen(w, c)
  }

  /** close touches no other connection and neither the server nor the
      proxy pool. */
  lemma CloseKeepsOthers(w: World, c: ConnRef)
    requires HasContext(w, c) && PeersIn(w, w.conns[c].omsgQ)
    requires w.conns[c].rmsg.Some? ==> PeerOk(w, w.conns[c].rmsg.value)
    ensures var r := Close(w, c);
      r.conns.Keys == w.conns.Keys &&
      (forall d :: d in w.conns && d != c ==> r.conns[d] == w.conns[d]) &&
      r.sPool == w.sPool && r.pPool == w.pPool
  {
    var x := w.conns[c];
    if x.io.sd >= 0 {
      var w1 := DropRmsg(w, c);
      DropRmsgSame(w, c);
      var w2 := Discard(w1, x.omsgQ);
      assert Close(w, c) == Release(w2, c);
    }
  }

  /** close frees messages but changes every message record only as
      SameButFreed allows. */
  lemma CloseKeepsLinks(w: World, c: ConnRef)
    requires HasContext(w, c) && PeersIn(w, w.conns[c].omsgQ)
    requires w.conns[c].rmsg.Some? ==> PeerOk(w, w.conns[c].rmsg.value)
    ensures var r := Close(w, c);
      r.msgs.Keys == w.msgs.Keys && (forall x :: x in w.msgs ==> SameButFreed(w.msgs[x], r.msgs[x]))
  {
    var x := w.conns[c];
    if x.io.sd >= 0 {
      var w1 := DropRmsg(w, c);
      DropRmsgSame(w, c);
      var w2 := Discard(w1, x.omsgQ);
      assert Close(w, c) == Release(w2, c);
      SameButFreedTrans(w.msgs, w1.msgs, w2.msgs);
    }
  }

  /** close of an open client leaves every outstanding request that was
      not done marked swallow, and every done one without segments. */
  lemma CloseMarksOutstanding(w: World, c: ConnRef, i: nat)
    requires HasContext(w, c) && PeersIn(w, w.conns[c].omsgQ)
    requires w.conns[c].rmsg.Some? ==> PeerOk(w, w.conns[c].rmsg.value)
    requires w.conns[c].io.sd >= 0 && i < |w.conns[c].omsgQ|
    ensures var m := w.conns[c].omsgQ[i]; var r := Close(w, c);
      m in r.msgs && (w.msgs[m].done ==> r.msgs[m].mbufs == []) && (!w.msgs[m].done ==> r.msgs[m].swallow)
  {
    var x := w.conns[c];
    var w1 := DropRmsg(w, c);
    DropRmsgSame(w, c);
    var m := x.omsgQ[i];
    assert PeerOk(w, m);
    assert SameButFreed(w.msgs[m], w1.msgs[m]);
    if w.msgs[m].done {
      DiscardEmpties(w1, x.omsgQ, m);
    } else {
      DiscardSwallows(w1, x.omsgQ, m);
    }
    assert Close(w, c) == Release(Discard(w1, x.omsgQ), c);
  }

  // ------------------------------------------------------------ receive

  /** NcClientConn::recvNext(alloc). At end of file a partly received
      request is dropped and freed (forced, so its peer goes too), the connection is done
      when it is no longer active, and nothing is returned. Otherwise the
      message being received is returned; failing that, with `alloc`, a
      message is taken from the message pool, becomes the one being
      received and points back at the connection; when none can be had
      the connection records `errno`. */
  function RecvNext(w: World, c: ConnRef, alloc: bool, made: Option<MsgRef>, blank: Msg, errno: int): (r: Servers.Next)
    requires HasContext(w, c) && Wf(w)
    requires made.Some? ==> made.value !in w.msgs
    requires blank.mbufs == [] && blank.key == 0 && blank.data.None?
    ensures c in r.w.conns
    ensures var x := w.conns[c];
      x.io.eof ==>
        r.msg.None? &&
        r.w.conns[c] == x.(rmsg := None, io := x.io.(done := x.io.done || !Active(x.(rmsg := None))))
    ensures var x := w.conns[c];
      x.io.eof && x.rmsg.Some? ==>
        r.w.msgPool.free == w.msgPool.free + PeerSeq(w.msgs[x.rmsg.value].peer) + [x.rmsg.value] &&
        r.w.tree == RbTree.RemoveAsWritten(w.tree, x.rmsg.value)
    ensures !w.conns[c].io.eof && w.conns[c].rmsg.Some? ==> r == Servers.Next(w, w.conns[c].rmsg)
    ensures !w.conns[c].io.eof && w.conns[c].rmsg.None? && !alloc ==> r == Servers.Next(w, None)
    ensures var x := w.conns[c];
      !x.io.eof && x.rmsg.None? && alloc ==>
        r.msg == Alloc(w.msgPool, made).1 && r.w.msgPool == Alloc(w.msgPool, made).0 &&
        (r.msg.None? ==> r.w.conns[c] == x.(io := x.io.(err := errno))) &&
        (r.msg.Some? ==> r.w.conns[c] == x.(rmsg := r.msg) && r.msg.value in r.w.msgs &&
                         r.w.msgs[r.msg.value].data == Some(c))
  {
    var x := w.conns[c];
    if x.io.eof then RecvAtEof(w, c)
    else if x.rmsg.Some? then Servers.Next(w, x.rmsg)
    else if !alloc then Servers.Next(w, None)
    else RecvAlloc(w, c, made, blank, errno)
  }

  /** recvNext at end of file: a partly received request is dropped and
      freed (forced), and the connection is done when it is no longer active. */
  function RecvAtEof(w: World, c: ConnRef): (r: Servers.Next)
    requires HasContext(w, c) && Wf(w)
    ensures c in r.w.conns
    ensures var x := w.conns[c];
      r.msg.None? &&
      r.w.conns[c] == x.(rmsg := None, io := x.io.(done := x.io.done || !Active(x.(rmsg := None))))
    ensures var x := w.conns[c];
      x.rmsg.Some? ==>
        r.w.msgPool.free == w.msgPool.free + PeerSeq(w.msgs[x.rmsg.value].peer) + [x.rmsg.value] &&
        r.w.tree == RbTree.RemoveAsWritten(w.tree, x.rmsg.value)
  {
    var x := w.conns[c];
    var x1 := x.(rmsg := None);
    var x2 := x1.(io := x1.io.(done := x1.io.done || !Active(x1)));
    var w1 := WithConn(w, c, x2);
    if x.rmsg.Some? then
      assert ConnOk(w, x) && MsgOk(w, w.msgs[x.rmsg.value]);
      Servers.Next(FreeForced(w1, x.rmsg.value), None)
    else Servers.Next(w1, None)
  }

  /** recvNext with nothing being received and `alloc`: a message from the
      pool becomes the one being received and points back at the
      connection, or the connection records `errno`. */
  function RecvAlloc(w: World, c: ConnRef, made: Option<MsgRef>, blank: Msg, errno: int): (r: Servers.Next)
    requires HasContext(w, c) && Wf(w)
    requires made.Some? ==> made.value !in w.msgs
    requires blank.mbufs == [] && blank.key == 0 && blank.data.None?
    ensures c in r.w.conns
    ensures var x := w.conns[c];
        r.msg == Alloc(w.msgPool, made).1 && r.w.msgPool == Alloc(w.msgPool, made).0 &&
        (r.msg.None? ==> r.w.conns[c] == x.(io := x.io.(err := errno))) &&
        (r.msg.Some? ==> r.w.conns[c] == x.(rmsg := r.msg) && r.msg.value in r.w.msgs &&
                         r.w.msgs[r.msg.value].data == Some(c))
  {
    var x := w.conns[c];
    var (w2, o) := AllocMsg(w, made, blank);
    match o
    case None => Servers.Next(WithConn(w2, c, x.(io := x.io.(err := errno))), None)
    case Some(m) =>
      assert m in w2.msgs by {
        assert w.msgPool.free != [] ==> w.msgPool.free[0] in w.msgs;
      }
      Servers.Next(WithConn(WithMsg(w2, m, w2.msgs[m].(data := Some(c))), c, x.(rmsg := o)), o)
  }

  /** A client that reaches end of file with nothing pending is done. */
  lemma RecvNextAtEofIdle(w: World, c: ConnRef, alloc: bool, made: Option<MsgRef>, blank: Msg, errno: int)
    requires HasContext(w, c) && Wf(w) && w.conns[c].role == ClientRole
    requires made.Some? ==> made.value !in w.msgs
    requires blank.mbufs == [] && blank.key == 0 && blank.data.None?
    requires w.conns[c].io.eof && w.conns[c].imsgQ == [] && w.conns[c].smsg.None?
    ensures var r := RecvNext(w, c, alloc, made, blank, errno);
      r.w.conns[c].io.done && r.w.conns[c].rmsg.None?
  {
    assert !Active(w.conns[c].(rmsg := None));
  }

  /** A message handed out by recvNext is handed out again by the next
      call: it is now the connection's current receive message. */
  lemma RecvNextKeepsCurrent(w: World, c: ConnRef, made: Option<MsgRef>, blank: Msg, errno: int,
                             made2: Option<MsgRef>, errno2: int)
    requires HasContext(w, c) && Wf(w) && !w.conns[c].io.eof && w.conns[c].rmsg.None?
    requires made.Some? ==> made.value !in w.msgs
    requires blank.mbufs == [] && blank.key == 0 && blank.data.None? && blank.peer.None? && blank.pos.None?
    ensures var r := RecvNext(w, c, true, made, blank, errno);
      r.msg.Some? ==>
        HasContext(r.w, c) && Wf(r.w) && (made2.Some? && made2 != made ==> made2.value !in w.msgs ==> made2.value !in r.w.msgs) &&
        (made2.Some? ==> made2.value !in r.w.msgs ==>
           RecvNext(r.w, c, true, made2, blank, errno2) == Servers.Next(r.w, r.msg))
  {
    var r := RecvNext(w, c, true, made, blank, errno);
    if r.msg.Some? {
      var (w2, o) := AllocMsg(w, made, blank);
      AllocMsgKeepsWf(w, made, blank);
      var m := o.value;
      var w3 := WithMsg(w2, m, w2.msgs[m].(data := Some(c)));
      WithMsgKeepsWf(w2, m, w2.msgs[m].(data := Some(c)));
      assert ConnOk(w3, w.conns[c].(rmsg := o));
      WithConnKeepsWf(w3, c, w.conns[c].(rmsg := o));
    }
  }

  /** What recvDone needs from the environment: the fresh reply message
      and the errno its allocation leaves, the status of the local reply
      and the errno after it, the status of the client's addOutput and the
      errno after it, and what a forward needs. */
  datatype DoneEnv = DoneEnv(
    made: Option<MsgRef>, blank: Msg, allocErrno: int, replyStatus: int, replyErrno: int,
    addOut: int, addOutErrno: int, fwd: Message.ForwardEnv)

  ghost predicate DoneEnvOk(w: World, env: DoneEnv) {
    (env.made.Some? ==> env.made.value !in w.msgs) &&
    env.blank.mbufs == [] && env.blank.key == 0 && env.blank.data.None? &&
    (env.fwd.sMade.Some? ==> env.fwd.sMade.value !in w.conns) &&
    Constructed(env.fwd.sBlank, ServerRole)
  }

  /** The local answer to a request that is not forwarded: the reply is
      made, then sent, then the client asks to write; the first failing
      step stops the sequence and the client records the errno it left.
      With a reply message `o` from the pool the request is done, linked
      both ways to `o` and queued at the back of the outstanding queue;
      without one the queue is as it was and the request and the client
      hold the allocation's errno. The message being received, the owner
      and the server pool are kept. */
  function LocalReply(w: World, c: ConnRef, m: MsgRef, env: DoneEnv): (r: World)
    requires c in w.conns && m in w.msgs && MsgsIn(w, w.msgPool.free)
    requires env.made.Some? ==> env.made.value !in w.msgs
    requires env.blank.mbufs == [] && env.blank.key == 0 && env.blank.data.None?
    ensures c in r.conns && m in r.msgs && r.pool == w.pool
    ensures r.conns[c].rmsg == w.conns[c].rmsg && r.conns[c].owner == w.conns[c].owner &&
            r.conns[c].role == w.conns[c].role
    ensures var o := Alloc(w.msgPool, env.made).1;
      o.None? ==>
        r.conns[c].omsgQ == w.conns[c].omsgQ && r.msgs[m].err == env.allocErrno &&
        r.conns[c].io == w.conns[c].io.(err := env.allocErrno)
    ensures var o := Alloc(w.msgPool, env.made).1;
      o.Some? ==>
        o.value in r.msgs && r.msgs[m].done &&
        r.conns[c].omsgQ == (if w.conns[c].role == ProxyRole then w.conns[c].omsgQ else w.conns[c].omsgQ + [m]) &&
        r.msgs[m].peer == o && r.msgs[o.value].peer == Some(m)
    ensures Alloc(w.msgPool, env.made).1.Some? && env.replyStatus != Ok ==>
      r.conns[c].io == w.conns[c].io.(err := env.replyErrno)
    ensures var io := w.conns[c].io;
      Alloc(w.msgPool, env.made).1.Some? && env.replyStatus == Ok ==>
        (io.sendActive || env.addOut == Ok ==> r.conns[c].io == io.(sendActive := true)) &&
        (!io.sendActive && env.addOut != Ok ==>
           r.conns[c].io == io.(sendActive := env.addOut >= 0, err := env.addOutErrno))
  {
    MadeReply(w, c, m, env);
    var (st, w1) := Message.RequestMakeReply(w, c, m, env.made, env.blank, env.allocErrno);
    WithConn(w1, c, w1.conns[c].(io := AnswerIo(w1.conns[c].io, st == Ok, env)))
  }

  /** The client's socket state after the local answer: the errno of the
      first failing step among making the reply, sending it and asking
      for write interest; after a successful reply writing is armed
      unless a first arming fails. */
  function AnswerIo(io: ConnIo, made: bool, env: DoneEnv): (r: ConnIo)
    ensures !made ==> r == io.(err := env.allocErrno)
    ensures made && env.replyStatus != Ok ==> r == io.(err := env.replyErrno)
    ensures made && env.replyStatus == Ok ==>
      (io.sendActive || env.addOut == Ok ==> r == io.(sendActive := true)) &&
      (!io.sendActive && env.addOut != Ok ==> r == io.(sendActive := env.addOut >= 0, err := env.addOutErrno))
  {
    if !made then io.(err := env.allocErrno)
    else if env.replyStatus != Ok then io.(err := env.replyErrno)
    else
      var (st, io2, _) := Epoll.AddOutput(io, env.addOut);
      if st != Ok then io2.(err := env.addOutErrno) else io2
  }

  /** What making the reply leaves for the rest of the local answer: the
      client record differs at most in its outstanding queue, and the
      status says whether a reply message was had. */
  lemma MadeReply(w: World, c: ConnRef, m: MsgRef, env: DoneEnv)
    requires c in w.conns && m in w.msgs && MsgsIn(w, w.msgPool.free)
    requires env.made.Some? ==> env.made.value !in w.msgs
    requires env.blank.mbufs == [] && env.blank.key == 0 && env.blank.data.None?
    ensures var (st, w1) := Message.RequestMakeReply(w, c, m, env.made, env.blank, env.allocErrno);
      var o := Alloc(w.msgPool, env.made).1;
      c in w1.conns && m in w1.msgs && w1.pool == w.pool &&
      w1.conns[c] == w.conns[c].(omsgQ := w1.conns[c].omsgQ) && (st == Ok <==> o.Some?) &&
      (o.None? ==> w1.conns[c].omsgQ == w.conns[c].omsgQ && w1.msgs[m].err == env.allocErrno) &&
      (o.Some? ==>
         o.value in w1.msgs && w1.msgs[m].done && w1.msgs[m].peer == o && w1.msgs[o.value].peer == Some(m) &&
         w1.conns[c].omsgQ == (if w.conns[c].role == ProxyRole then w.conns[c].omsgQ else w.conns[c].omsgQ + [m]))
  {
    Message.RequestMakeReplyFrame(w, c, m, env.made, env.blank, env.allocErrno);
  }

  /** What recvDone leaves when the filter consumes the request: it is
      back in the message pool with no segments, the client's outstanding
      queue is as it was, `rmsg` is the message being received, and after
      a quit the client reads no more. */
  ghost predicate Consumed(w: World, c: ConnRef, cmsg: MsgRef, rmsg: Option<MsgRef>, r: World)
    requires c in w.conns && cmsg in w.msgs
  {
    c in r.conns && cmsg in r.msgs && r.conns[c].rmsg == rmsg &&
    |r.msgPool.free| > 0 && r.msgPool.free[|r.msgPool.free| - 1] == cmsg && r.msgs[cmsg].mbufs == [] &&
    r.conns[c].omsgQ == w.conns[c].omsgQ &&
    (!MsgEmpty(w.msgs[cmsg]) ==> r.conns[c].io.eof && !r.conns[c].io.recvReady)
  }

  /** What recvDone leaves when it answers the request locally: with a
      reply message from the pool the request is done, linked to it and
      queued on the outstanding queue; without one the queue is as it was
      and the request holds the allocation's errno. `rmsg` is the message
      being received. */
  ghost predicate Answered(w: World, c: ConnRef, cmsg: MsgRef, rmsg: Option<MsgRef>, env: DoneEnv, r: World)
    requires c in w.conns
  {
    var o := Alloc(w.msgPool, env.made).1;
    c in r.conns && cmsg in r.msgs && r.conns[c].rmsg == rmsg &&
    (o.Some? ==> r.msgs[cmsg].done && r.msgs[cmsg].peer == o &&
                 r.conns[c].omsgQ == (if w.conns[c].role == ProxyRole then w.conns[c].omsgQ
                                      else w.conns[c].omsgQ + [cmsg])) &&
    (o.None? ==> r.conns[c].omsgQ == w.conns[c].omsgQ && r.msgs[cmsg].err == env.allocErrno)
  }

  /** What recvDone leaves when it forwards the request to the server
      connection `so` (None when there is none): the request joins the
      client's outstanding queue exactly when a reply is expected, and
      without a server connection it ends done and in error. */
  ghost predicate Forwarded(w: World, c: ConnRef, cmsg: MsgRef, so: Option<ConnRef>, r: World)
    requires c in w.conns && cmsg in w.msgs
  {
    c in r.conns && cmsg in r.msgs &&
    (so.None? ==> r.msgs[cmsg].done && r.msgs[cmsg].error) &&
    (w.conns[c].role == ClientRole && (so.None? || so.value != c) ==>
       r.conns[c].omsgQ == (if w.msgs[cmsg].noreply then w.conns[c].omsgQ else w.conns[c].omsgQ + [cmsg]))
  }

  /** NcClientConn::recvDone(cmsg, rmsg): the continuation becomes the
      message being received; a request the filter consumes goes no
      further; a request marked noforward is answered locally; any other
      is forwarded. The fragment queue of the source is always empty, so
      its branch is never taken. The request is consumed exactly when it
      is empty or a quit, and unless it is forwarded `rmsg` is the message
      being received afterwards. */
  function RecvDone(w: World, c: ConnRef, cmsg: MsgRef, rmsg: Option<MsgRef>, env: DoneEnv): (r: World)
    requires HasContext(w, c) && Wf(w) && cmsg in w.msgs && DoneEnvOk(w, env)
    requires |w.pool.servers| > 0 || w.msgs[cmsg].noforward || MsgEmpty(w.msgs[cmsg]) || w.msgs[cmsg].quit
    ensures MsgEmpty(w.msgs[cmsg]) || w.msgs[cmsg].quit ==> Consumed(w, c, cmsg, rmsg, r)
    ensures !MsgEmpty(w.msgs[cmsg]) && !w.msgs[cmsg].quit && w.msgs[cmsg].noforward ==>
      Answered(w, c, cmsg, rmsg, env, r)
    ensures !MsgEmpty(w.msgs[cmsg]) && !w.msgs[cmsg].quit && !w.msgs[cmsg].noforward ==>
      Forwarded(w, c, cmsg, Message.ForwardTarget(WithConn(w, c, w.conns[c].(rmsg := rmsg)), c, cmsg, env.fwd).2, r)
  {
    var w1 := WithConn(w, c, w.conns[c].(rmsg := rmsg));
    if MsgEmpty(w.msgs[cmsg]) || w.msgs[cmsg].quit then
      ConsumedFacts(w, c, cmsg, rmsg);
      Message.RequestFilter(w1, c, cmsg).1
    else if w.msgs[cmsg].noforward then
      AnsweredFacts(w, c, cmsg, rmsg, env);
      LocalReply(w1, c, cmsg, env)
    else
      ForwardedFacts(w, c, cmsg, rmsg, env);
      Message.RequestForward(w1, c, cmsg, env.fwd)
  }

  /** The filter's branch of recvDone leaves Consumed. */
  lemma ConsumedFacts(w: World, c: ConnRef, cmsg: MsgRef, rmsg: Option<MsgRef>)
    requires HasContext(w, c) && Wf(w) && cmsg in w.msgs
    requires MsgEmpty(w.msgs[cmsg]) || w.msgs[cmsg].quit
    ensures var w1 := WithConn(w, c, w.conns[c].(rmsg := rmsg));
      PeerOk(w1, cmsg) &&
      var (consumed, r) := Message.RequestFilter(w1, c, cmsg);
      consumed && Consumed(w, c, cmsg, rmsg, r)
  {
    var w1 := WithConn(w, c, w.conns[c].(rmsg := rmsg));
    assert MsgOk(w, w.msgs[cmsg]);
    assert PeerOk(w1, cmsg);
    Message.FilterConsumes(w1, c, cmsg);
  }

  /** The local answer's branch of recvDone leaves Answered. */
  lemma AnsweredFacts(w: World, c: ConnRef, cmsg: MsgRef, rmsg: Option<MsgRef>, env: DoneEnv)
    requires HasContext(w, c) && Wf(w) && cmsg in w.msgs && DoneEnvOk(w, env)
    ensures var w1 := WithConn(w, c, w.conns[c].(rmsg := rmsg));
      MsgsIn(w1, w1.msgPool.free) && Answered(w, c, cmsg, rmsg, env, LocalReply(w1, c, cmsg, env))
  {
    var w1 := WithConn(w, c, w.conns[c].(rmsg := rmsg));
    assert MsgsIn(w1, w1.msgPool.free);
  }

  /** The forward's branch of recvDone leaves Forwarded. */
  lemma ForwardedFacts(w: World, c: ConnRef, cmsg: MsgRef, rmsg: Option<MsgRef>, env: DoneEnv)
    requires HasContext(w, c) && Wf(w) && cmsg in w.msgs && DoneEnvOk(w, env) && |w.pool.servers| > 0
    ensures var w1 := WithConn(w, c, w.conns[c].(rmsg := rmsg));
      PeerOk(w1, cmsg) && Message.LiveTargets(w1) &&
      Forwarded(w, c, cmsg, Message.ForwardTarget(w1, c, cmsg, env.fwd).2, Message.RequestForward(w1, c, cmsg, env.fwd))
  {
    var w1 := WithConn(w, c, w.conns[c].(rmsg := rmsg));
    assert MsgOk(w, w.msgs[cmsg]);
    assert PeerOk(w1, cmsg);
    Message.WfLiveTargets(w);
    assert Message.LiveTargets(w1);
  }

  // --------------------------------------------------------------- send

  /** The client record after sendNext found nothing outstanding: done
      once the peer has closed, write interest dropped, and a failed drop
      recorded as the connection's error. */
  function Settle(x: Conn, delStatus: int, errno: int): (y: Conn)
    ensures y.omsgQ == x.omsgQ && y.imsgQ == x.imsgQ && y.rmsg == x.rmsg && y.smsg == x.smsg
    ensures y.owner == x.owner && y.role == x.role
    ensures y.io.done == (x.io.done || x.io.eof)
    ensures delStatus == Ok || !x.io.sendActive ==> !y.io.sendActive && y.io.err == x.io.err
    ensures x.io.sendActive && delStatus != Ok ==> y.io.err == errno
  {
    var io1 := x.io.(done := x.io.done || x.io.eof);
    var (st, io2, _) := Epoll.DelOutput(io1, delStatus);
    x.(io := if st != Ok then io2.(err := errno) else io2)
  }

  /** Settling twice is settling once, when the first drop succeeded. */
  lemma SettleTwice(x: Conn, delStatus: int, errno: int, delStatus2: int, errno2: int)
    requires delStatus >= 0
    ensures var y := Settle(x, delStatus, errno);
      !y.io.sendActive && Settle(y, delStatus2, errno2) == y
  {
    var y := Settle(x, delStatus, errno);
    assert !y.io.sendActive;
    var io1 := y.io.(done := y.io.done || y.io.eof);
    assert io1 == y.io;
    assert Epoll.DelOutput(io1, delStatus2) == (0, y.io, None);
    assert y.(io := y.io) == y;
  }

  /** NcClientConn::sendNext. Without a context nothing is sent. With an
      empty outstanding queue the connection is done once end of file was
      seen, the write interest is dropped (a failure records `errno`) and
      nothing is sent. With requests outstanding the message already
      being sent is returned again and the connection is unchanged. */
  function SendNext(w: World, c: ConnRef, delStatus: int, errno: int): (r: Servers.Next)
    requires c in w.conns && w.conns[c].owner.Some?
    ensures !w.pool.hasCtx ==> r == Servers.Next(w, None)
    ensures w.pool.hasCtx && w.conns[c].omsgQ == [] ==>
      r == Servers.Next(WithConn(w, c, Settle(w.conns[c], delStatus, errno)), None)
    ensures w.pool.hasCtx && w.conns[c].omsgQ != [] ==> r == Servers.Next(w, w.conns[c].smsg)
  {
    var x := w.conns[c];
    if !w.pool.hasCtx then Servers.Next(w, None)
    else if Front(x.omsgQ).None? then
      Servers.Next(WithConn(w, c, Settle(x, delStatus, errno)), None)
    else Servers.Next(w, x.smsg)
  }

  /** With nothing outstanding, a second sendNext finds write interest
      already dropped and changes nothing more, when the first drop
      succeeded. */
  lemma SendNextIdleSettles(w: World, c: ConnRef, delStatus: int, errno: int, delStatus2: int, errno2: int)
    requires c in w.conns && w.conns[c].owner.Some? && w.pool.hasCtx && w.conns[c].omsgQ == []
    requires delStatus >= 0
    ensures var r := SendNext(w, c, delStatus, errno);
      c in r.w.conns && !r.w.conns[c].io.sendActive &&
      SendNext(r.w, c, delStatus2, errno2) == r
  {
    var y := Settle(w.conns[c], delStatus, errno);
    SettleTwice(w.conns[c], delStatus, errno, delStatus2, errno2);
    var w1 := WithConn(w, c, y);
    assert WithConn(w1, c, y) == w1;
  }

  /** NcClientConn::sendDone(msg): the request the sent reply answers
      leaves the outstanding queue and is freed (forced, so the reply it
      still points at goes back to the pool first). */
  function SendDone(w: World, c: ConnRef, m: MsgRef): (r: World)
    requires c in w.conns && m in w.msgs && w.msgs[m].peer.Some? && PeerOk(w, w.msgs[m].peer.value)
    requires w.conns[c].owner.Some? ==> w.pool.hasCtx
    ensures var p := w.msgs[m].peer.value;
      r == FreeMsg(WithConn(w, c, DequeueOutput(w.conns[c], p)), c, p, true)
    ensures var p := w.msgs[m].peer.value;
      c in r.conns && r.conns[c].omsgQ == (if w.conns[c].role == ProxyRole then w.conns[c].omsgQ
                                            else Remove(w.conns[c].omsgQ, p))
    ensures var p := w.msgs[m].peer.value;
      w.conns[c].owner.Some? ==>
        r.msgPool.free == w.msgPool.free + PeerSeq(w.msgs[p].peer) + [p] && r.tree == RbTree.RemoveAsWritten(w.tree, p)
  {
    var p := w.msgs[m].peer.value;
    FreeMsg(WithConn(w, c, DequeueOutput(w.conns[c], p)), c, p, true)
  }

  /** A locally made reply, once sent, takes its request off the
      outstanding queue again: the queue is as it was before recvDone. */
  lemma ReplySentRestoresQueue(w: World, c: ConnRef, m: MsgRef, env: DoneEnv)
    requires c in w.conns && m in w.msgs && MsgsIn(w, w.msgPool.free) && w.conns[c].role == ClientRole
    requires env.made.Some? ==> env.made.value !in w.msgs
    requires env.blank.mbufs == [] && env.blank.key == 0 && env.blank.data.None?
    requires w.conns[c].owner.Some? ==> w.pool.hasCtx
    requires m !in w.conns[c].omsgQ && PeerOk(w, m)
    requires Alloc(w.msgPool, env.made).1.Some?
    ensures var r := LocalReply(w, c, m, env);
      var rsp := Alloc(w.msgPool, env.made).1.value;
      rsp in r.msgs && r.msgs[rsp].peer == Some(m) && PeerOk(r, m) &&
      c in r.conns && (r.conns[c].owner.Some? ==> r.pool.hasCtx) &&
      SendDone(r, c, rsp).conns[c].omsgQ == w.conns[c].omsgQ
  {
    var r := LocalReply(w, c, m, env);
    var rsp := Alloc(w.msgPool, env.made).1.value;
    assert rsp in r.msgs && r.msgs[rsp].peer == Some(m) && m in r.msgs && r.msgs[m].peer == Some(rsp);
    assert PeerOk(r, m) && r.conns[c].role == ClientRole;
    assert r.conns[c].owner.Some? ==> r.pool.hasCtx;
    assert SendDone(r, c, rsp).conns[c].omsgQ == Remove(w.conns[c].omsgQ + [m], m);
    RemoveUndoesPush(w.conns[c].omsgQ, m);
  }
}
