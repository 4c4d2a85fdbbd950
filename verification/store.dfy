/** The object graph of one context (NcContext, nc_core.h): messages,
    segments and connections live in maps from references to records, so
    the pointer sharing of the source stays visible (a segment reachable
    from two queues, a freed message still named by a queue). Freed objects
    stay in the maps; the pools hold their references. This module also
    holds what every connection role shares: message and connection reset,
    freeMbuf/freeMsg, and the per-role queue hooks and `active` tests. */
module Store {
  import opened Common
  import opened Util
  import opened Queue
  import opened ObjectPool
  import opened Mbuf
  import opened Event
  import RbTree
  import opened Pools

  type MsgRef = nat
  type MbufRef = nat

  /** A byte pointer into a segment: the segment and an offset from its
      start. */
  datatype Cursor = Cursor(seg: MbufRef, off: nat)

  datatype Protocol = Http | Redis | Memcached | Mysql

  /** NcMsg with its NcMsgBase and rbnode parts. `key` and `data` are the
      rbnode's deadline and connection pointer; the tree links are in
      the context's deadline tree. */
  datatype Msg = Msg(
    id: nat, peer: Option<MsgRef>, mlen: nat, startTs: int, pos: Option<Cursor>,
    mbufs: seq<MbufRef>, err: int, key: int, data: Option<ConnRef>,
    error: bool, quit: bool, noreply: bool, noforward: bool, done: bool,
    swallow: bool, proto: Protocol)

  /** The dynamic class of a connection: which overrides of NcConn apply. */
  datatype Role = ClientRole | ServerRole | ProxyRole

  /** m_owner_: the context's server pool (client and proxy connections)
      or one of its servers (server connections). */
  datatype Owner = PoolOwner | ServerOwner(idx: nat)

  /** NcConn. */
  datatype Conn = Conn(
    role: Role, io: ConnIo, owner: Option<Owner>,
    connecting: bool, connected: bool, authenticated: bool, timeout: int,
    imsgQ: seq<MsgRef>, omsgQ: seq<MsgRef>, rmsg: Option<MsgRef>, smsg: Option<MsgRef>)

  /** One context: its object maps, its server pool, its five recycling
      pools, the instance's deadline tree and id counter, and the global
      segment chunk size. */
  datatype World = World(
    msgs: map<MsgRef, Msg>, mbufs: map<MbufRef, Mbuf>, conns: map<ConnRef, Conn>,
    pool: ServerPool,
    msgPool: Pool<MsgRef>, mbufPool: Pool<MbufRef>,
    cPool: Pool<ConnRef>, sPool: Pool<ConnRef>, pPool: Pool<ConnRef>,
    tree: RbTree.Tree, ids: IdGen, chunkSize: nat)

  // ------------------------------------------------------------ messages

  /** NcMsgBase::reset: a fresh id, no peer, length 0, start time `now`,
      no parse position, no error, HTTP, and the rbnode part cleared. The
      flags and the segment queue are not touched. */
  function MsgReset(m: Msg, ids: IdGen, now: int): (r: (Msg, IdGen))
    ensures r.0.id == ids.next && r.1.next > r.0.id
    ensures r.0.peer.None? && r.0.mlen == 0 && r.0.pos.None? && r.0.err == 0
    ensures r.0.key == 0 && r.0.data.None? && r.0.startTs == now && r.0.proto == Http
    ensures r.0.mbufs == m.mbufs
    ensures r.0.error == m.error && r.0.quit == m.quit && r.0.noreply == m.noreply
    ensures r.0.noforward == m.noforward && r.0.done == m.done && r.0.swallow == m.swallow
  {
    var (id, ids') := NextId(ids);
    (m.(key := 0, data := None, id := id, peer := None, mlen := 0, startTs := now,
        pos := None, err := 0, proto := Http), ids')
  }

  /** Messages reset one after another get strictly increasing ids. */
  lemma ResetIdsIncrease(m1: Msg, m2: Msg, g: IdGen, t1: int, t2: int)
    ensures MsgReset(m2, MsgReset(m1, g, t1).1, t2).0.id > MsgReset(m1, g, t1).0.id
  {
  }

  /** empty(): a message is empty iff its length is zero. */
  predicate MsgEmpty(m: Msg) {
    m.mlen == 0
  }

  /** setLength(len): the length becomes `len` taken as a uint32. */
  function SetLength(m: Msg, len: int): (r: Msg)
    ensures r.mlen == U32(len)
    ensures r.(mlen := m.mlen) == m
  {
    m.(mlen := U32(len))
  }

  /** Setting a length that fits makes the message empty exactly when the
      length is zero. */
  lemma SetLengthEmpty(m: Msg, len: int)
    requires 0 <= len < Two32
    ensures MsgEmpty(SetLength(m, len)) <==> len == 0
  {
  }

  // --------------------------------------------------------------- pools

  lemma U32Step(n: nat, k: nat)
    ensures U32(U32(n + 1) + k) == U32(n + 1 + k)
  {
    var a := n + 1;
    assert U32(a) == a % Two32;
    assert (a % Two32 + k) % Two32 == (a + k) % Two32 by {
      var q := a / Two32;
      assert a == q * Two32 + a % Two32;
      assert a + k == q * Two32 + (a % Two32 + k);
      DivModShift(a % Two32 + k, q, Two32);
    }
  }

  lemma DivModShift(x: nat, q: nat, m: int)
    requires m > 0
    ensures (q * m + x) % m == x % m
  {
    var r := x % m;
    var d := x / m;
    assert x == d * m + r;
    assert q * m + x == (q + d) * m + r;
    DivModUnique(q * m + x, q + d, r, m);
  }

  /** Frees a run of objects into a pool, first to last. */
  function FreeAll<T>(p: Pool<T>, xs: seq<T>): (r: Pool<T>)
    ensures r.free == p.free + xs && r.current == p.current
    ensures xs == [] ==> r == p
    ensures xs != [] ==> r.nfree == U32(p.nfree + |xs|)
    decreases |xs|
  {
    if xs == [] then p
    else
      var r := FreeAll(Free(p, Some(xs[0])), xs[1..]);
      assert |xs| > 1 ==> r.nfree == U32(p.nfree + |xs|) by {
        if |xs| > 1 { U32Step(p.nfree, |xs| - 1); }
      }
      assert [xs[0]] + xs[1..] == xs;
      r
  }

  /** freeMbuf(ctx): without a context nothing happens; otherwise every
      segment of the message goes back to the segment pool, front first,
      and the message is left with none. */
  function FreeMbuf(w: World, m: MsgRef, hasCtx: bool): (r: World)
    requires m in w.msgs
    ensures !hasCtx ==> r == w
    ensures hasCtx ==> r.mbufPool.free == w.mbufPool.free + w.msgs[m].mbufs
    ensures hasCtx ==> r.msgs == w.msgs[m := w.msgs[m].(mbufs := [])]
    ensures hasCtx ==> r == w.(mbufPool := r.mbufPool, msgs := r.msgs)
  {
    if !hasCtx then w
    else w.(mbufPool := FreeAll(w.mbufPool, w.msgs[m].mbufs),
            msgs := w.msgs[m := w.msgs[m].(mbufs := [])])
  }

  // ---------------------------------------------------------- connections

  /** getContext() of every role: the context of the owning pool, or
      NULL for a connection without an owner. */
  predicate HasContext(w: World, c: ConnRef) {
    c in w.conns && w.conns[c].owner.Some? && w.pool.hasCtx
  }

  /** NcConn::reset: the base reset of the socket state, then no owner,
      not connecting, connected or authenticated, and no current receive
      or send message. Queues, timeout and role are kept. */
  function ConnReset(c: Conn): (r: Conn)
    ensures r.io == ResetIo(c.io) && r.io.sd == -1
    ensures r.owner.None? && !r.connecting && !r.connected && !r.authenticated
    ensures r.rmsg.None? && r.smsg.None?
    ensures r.imsgQ == c.imsgQ && r.omsgQ == c.omsgQ && r.timeout == c.timeout && r.role == c.role
  {
    c.(io := ResetIo(c.io), owner := None, connecting := false, connected := false,
       authenticated := false, rmsg := None, smsg := None)
  }

  /** Resetting twice is resetting once. */
  lemma ConnResetIdempotent(c: Conn)
    ensures ConnReset(ConnReset(c)) == ConnReset(c)
  {
  }

  /** What a connection object holds right after `new`: the constructor's
      reset has run and both queues are freshly built. */
  predicate Constructed(c: Conn, role: Role) {
    c == ConnReset(c) && c.imsgQ == [] && c.omsgQ == [] && c.role == role
  }

  /** enqueueInput: only server connections keep an input queue; for the
      other roles it is the no-op base hook. */
  function EnqueueInput(c: Conn, m: MsgRef): (r: Conn)
    ensures c.role == ServerRole ==> r == c.(imsgQ := Push(c.imsgQ, m))
    ensures c.role != ServerRole ==> r == c
  {
    if c.role == ServerRole then c.(imsgQ := Push(c.imsgQ, m)) else c
  }

  /** dequeueInput. */
  function DequeueInput(c: Conn, m: MsgRef): (r: Conn)
    ensures c.role == ServerRole ==> r == c.(imsgQ := Remove(c.imsgQ, m))
    ensures c.role != ServerRole ==> r == c
  {
    if c.role == ServerRole then c.(imsgQ := Remove(c.imsgQ, m)) else c
  }

  /** enqueueOutput: client and server connections append to the
      outstanding queue; the proxy inherits the no-op. */
  function EnqueueOutput(c: Conn, m: MsgRef): (r: Conn)
    ensures c.role != ProxyRole ==> r == c.(omsgQ := Push(c.omsgQ, m))
    ensures c.role == ProxyRole ==> r == c
  {
    if c.role != ProxyRole then c.(omsgQ := Push(c.omsgQ, m)) else c
  }

  /** dequeueOutput. */
  function DequeueOutput(c: Conn, m: MsgRef): (r: Conn)
    ensures c.role != ProxyRole ==> r == c.(omsgQ := Remove(c.omsgQ, m))
    ensures c.role == ProxyRole ==> r == c
  {
    if c.role != ProxyRole then c.(omsgQ := Remove(c.omsgQ, m)) else c
  }

  /** Dequeuing a message that was not queued before restores the input
      queue of a server and leaves the other roles as they were. */
  lemma EnqueueThenDequeueInput(c: Conn, m: MsgRef)
    requires m !in c.imsgQ
    ensures DequeueInput(EnqueueInput(c, m), m) == c
  {
    if c.role == ServerRole {
      RemoveUndoesPush(c.imsgQ, m);
      var c1 := c.(imsgQ := Push(c.imsgQ, m));
      assert DequeueInput(c1, m) == c1.(imsgQ := Remove(c1.imsgQ, m));
    }
  }

  /** The same for the outstanding queue of clients and servers. */
  lemma EnqueueThenDequeueOutput(c: Conn, m: MsgRef)
    requires m !in c.omsgQ
    ensures DequeueOutput(EnqueueOutput(c, m), m) == c
  {
    if c.role != ProxyRole {
      RemoveUndoesPush(c.omsgQ, m);
      var c1 := c.(omsgQ := Push(c.omsgQ, m));
      assert DequeueOutput(c1, m) == c1.(omsgQ := Remove(c1.omsgQ, m));
    }
  }

  /** The hooks a role does not override never touch its queues, and each
      hook touches only its own queue. */
  lemma HooksTouchOwnQueue(c: Conn, m: MsgRef)
    ensures c.role != ServerRole ==> EnqueueInput(c, m) == c && DequeueInput(c, m) == c
    ensures c.role == ProxyRole ==> EnqueueOutput(c, m) == c && DequeueOutput(c, m) == c
    ensures EnqueueInput(c, m).omsgQ == c.omsgQ && DequeueInput(c, m).omsgQ == c.omsgQ
    ensures EnqueueOutput(c, m).imsgQ == c.imsgQ && DequeueOutput(c, m).imsgQ == c.imsgQ
  {
  }

  /** active(): a client is busy with an input message or a current
      receive or send message; a server also with an outstanding one; the
      proxy always is. */
  function Active(c: Conn): (r: bool)
    ensures c.role == ProxyRole ==> r
    ensures c.role == ClientRole ==> (r <==> c.imsgQ != [] || c.rmsg.Some? || c.smsg.Some?)
    ensures c.role == ServerRole ==>
              (r <==> c.imsgQ != [] || c.omsgQ != [] || c.rmsg.Some? || c.smsg.Some?)
  {
    match c.role
    case ProxyRole => true
    case ClientRole => c.imsgQ != [] || c.rmsg.Some? || c.smsg.Some?
    case ServerRole => c.imsgQ != [] || c.omsgQ != [] || c.rmsg.Some? || c.smsg.Some?
  }

  /** A client with outstanding requests but nothing else pending reports
      itself idle, where a server would not. */
  lemma ClientIdleWithOutstanding(c: Conn, m: MsgRef)
    requires c.imsgQ == [] && c.rmsg.None? && c.smsg.None?
    ensures !Active(c.(role := ClientRole, omsgQ := [m]))
    ensures Active(c.(role := ServerRole, omsgQ := [m]))
  {
  }

  /** Replaces the record of connection `c`. */
  function WithConn(w: World, c: ConnRef, x: Conn): (r: World)
    ensures r.conns == w.conns[c := x]
    ensures r == w.(conns := r.conns)
  {
    w.(conns := w.conns[c := x])
  }

  /** Replaces the record of message `m`. */
  function WithMsg(w: World, m: MsgRef, x: Msg): (r: World)
    ensures r.msgs == w.msgs[m := x]
    ensures r == w.(msgs := r.msgs)
  {
    w.(msgs := w.msgs[m := x])
  }

  /** The message record after the deadline tree's remove(msg): the
      rbnode part is reset when the node was in the tree. A node that is
      not in the tree has no parent and is not the root, so remove returns
      before the reset and the record keeps its key and data. */
  function Unlinked(t: RbTree.Tree, x: Msg, m: MsgRef): (r: Msg)
    ensures RbTree.Contains(t, m) ==> r.key == 0 && r.data.None?
    ensures !RbTree.Contains(t, m) ==> r == x
    ensures r == x.(key := r.key, data := r.data)
  {
    if RbTree.Contains(t, m) then x.(key := 0, data := None) else x
  }

  /** The deadline tree's remove(msg), with the splice as nc_rbtree.h
      writes it (RbTree.RemoveAsWritten): the entry goes and the message's
      rbnode part is reset; a message not in the tree changes nothing. */
  function Untimed(w: World, m: MsgRef): (r: World)
    requires m in w.msgs
    ensures r.tree == RbTree.RemoveAsWritten(w.tree, m)
    ensures r.msgs == w.msgs[m := Unlinked(w.tree, w.msgs[m], m)]
    ensures !RbTree.Contains(w.tree, m) ==> r == w
    ensures r == w.(tree := r.tree, msgs := r.msgs)
  {
    if !RbTree.Contains(w.tree, m) then w
    else w.(tree := RbTree.RemoveAsWritten(w.tree, m), msgs := w.msgs[m := w.msgs[m].(key := 0, data := None)])
  }

  /** `m` exists and so does its peer, if it has one. */
  predicate PeerOk(w: World, m: MsgRef) {
    m in w.msgs && (w.msgs[m].peer.Some? ==> w.msgs[m].peer.value in w.msgs)
  }

  /** The peer part of a forced free: `m` and its peer `p` forget each
      other, and `p`'s segments and `p` itself go back to their pools. */
  function DetachPeer(w: World, m: MsgRef, p: MsgRef): (r: World)
    requires m in w.msgs && p in w.msgs
    ensures r == w.(msgs := r.msgs, msgPool := r.msgPool, mbufPool := r.mbufPool)
    ensures r.msgPool.free == w.msgPool.free + [p]
    ensures r.mbufPool.free == w.mbufPool.free + w.msgs[p].mbufs
    ensures r.msgs.Keys == w.msgs.Keys
    ensures r.msgs[m].peer.None? && r.msgs[p].peer.None? && r.msgs[p].mbufs == []
    ensures p != m ==> r.msgs[m] == w.msgs[m].(peer := None)
    ensures forall x :: x in w.msgs && x != m && x != p ==> r.msgs[x] == w.msgs[x]
  {
    var ms := w.msgs[m := w.msgs[m].(peer := None)];
    var w0 := FreeMbuf(w.(msgs := ms[p := ms[p].(peer := None)]), p, true);
    w0.(msgPool := Free(w0.msgPool, Some(p)))
  }

  /** The peer of a message as a sequence of zero or one references. */
  function PeerSeq(o: Option<MsgRef>): seq<MsgRef> {
    if o.Some? then [o.value] else []
  }

  /** Every message of `q` exists and so does its peer. */
  ghost predicate PeersIn(w: World, q: seq<MsgRef>) {
    forall i :: 0 <= i < |q| ==> PeerOk(w, q[i])
  }

  /** The forced part of freeMsg: the peer, if any, is detached and freed,
      and `m` leaves the deadline tree. */
  function ForceDetach(w: World, m: MsgRef): (r: World)
    requires PeerOk(w, m)
    ensures r == w.(msgs := r.msgs, msgPool := r.msgPool, mbufPool := r.mbufPool, tree := r.tree)
    ensures r.tree == RbTree.RemoveAsWritten(w.tree, m)
    ensures r.msgs.Keys == w.msgs.Keys && r.msgs[m].peer.None?
    ensures w.msgs[m].peer.None? ==>
              r.msgPool == w.msgPool && r.mbufPool == w.mbufPool &&
              r.msgs == w.msgs[m := Unlinked(w.tree, w.msgs[m], m)]
    ensures w.msgs[m].peer.Some? ==>
              r.msgPool.free == w.msgPool.free + [w.msgs[m].peer.value] &&
              r.mbufPool.free == w.mbufPool.free + w.msgs[w.msgs[m].peer.value].mbufs &&
              r.msgs[w.msgs[m].peer.value].peer.None?
    ensures w.msgs[m].peer.Some? && w.msgs[m].peer.value != m ==>
              r.msgs[w.msgs[m].peer.value].mbufs == [] && r.msgs[m].mbufs == w.msgs[m].mbufs
    ensures forall x :: x in w.msgs && x != m && Some(x) != w.msgs[m].peer ==> r.msgs[x] == w.msgs[x]
  {
    match w.msgs[m].peer
    case None => Untimed(w, m)
    case Some(p) =>
      var w1 := DetachPeer(w, m, p);
      Untimed(w1, m)
  }

  /** What the peer part does to `p`: it loses its link and its
      segments; every other field is kept. */
  lemma DetachPeerRecords(w: World, m: MsgRef, p: MsgRef)
    requires m in w.msgs && p in w.msgs
    ensures var r := DetachPeer(w, m, p);
      r.msgs[p] == w.msgs[p].(peer := None, mbufs := [])
  {
  }

  /** What the forced part does to `m`: it loses its peer and its
      deadline key and data, and keeps its segments unless it is its own
      peer; every other field is kept. */
  lemma ForceDetachOwn(w: World, m: MsgRef)
    requires PeerOk(w, m)
    ensures var r := ForceDetach(w, m);
      r.msgs[m] == Unlinked(w.tree, w.msgs[m], m).(peer := None, mbufs := r.msgs[m].mbufs) &&
      (r.msgs[m].mbufs == w.msgs[m].mbufs || r.msgs[m].mbufs == [])
  {
    if w.msgs[m].peer.Some? {
      DetachPeerRecords(w, m, w.msgs[m].peer.value);
    }
  }

  /** What the forced part does to a peer other than `m`: it loses its
      link and its segments; every other field is kept. */
  lemma ForceDetachPeer(w: World, m: MsgRef)
    requires PeerOk(w, m) && w.msgs[m].peer.Some? && w.msgs[m].peer.value != m
    ensures var p := w.msgs[m].peer.value;
      ForceDetach(w, m).msgs[p] == w.msgs[p].(peer := None, mbufs := [])
  {
    DetachPeerRecords(w, m, w.msgs[m].peer.value);
  }

  /** The unforced part of freeMsg: the message's segments, then the
      message, go back to their pools. */
  function FreeOwn(w: World, m: MsgRef): (r: World)
    requires m in w.msgs
    ensures r == w.(msgs := r.msgs, msgPool := r.msgPool, mbufPool := r.mbufPool)
    ensures r.msgPool.free == w.msgPool.free + [m]
    ensures r.mbufPool.free == w.mbufPool.free + w.msgs[m].mbufs
    ensures r.msgs == w.msgs[m := w.msgs[m].(mbufs := [])]
  {
    var w2 := FreeMbuf(w, m, true);
    w2.(msgPool := Free(w2.msgPool, Some(m)))
  }

  /** freeMsg(msg, force): a connection without an owner frees nothing.
      Otherwise, with force, the peer is detached and freed and the
      message leaves the deadline tree; then the message's segments and
      the message itself go back to their pools. The message stays in the
      queues that hold it. */
  function FreeMsg(w: World, c: ConnRef, m: MsgRef, force: bool): (r: World)
    requires c in w.conns && PeerOk(w, m)
    requires w.conns[c].owner.Some? ==> w.pool.hasCtx
    ensures w.conns[c].owner.None? ==> r == w
    ensures r == w.(msgs := r.msgs, msgPool := r.msgPool, mbufPool := r.mbufPool, tree := r.tree)
    ensures r.msgs.Keys == w.msgs.Keys
    ensures w.conns[c].owner.Some? ==> r.msgs[m].mbufs == []
    ensures w.conns[c].owner.Some? && !force ==>
              r == FreeOwn(w, m) && r.tree == w.tree && r.msgPool.free == w.msgPool.free + [m]
    ensures w.conns[c].owner.Some? && force ==> r.tree == RbTree.RemoveAsWritten(w.tree, m)
    ensures w.conns[c].owner.Some? && force ==> r.msgs[m].peer.None?
    ensures w.conns[c].owner.Some? && force && w.msgs[m].peer.None? ==>
              r.msgPool.free == w.msgPool.free + [m] &&
              r.mbufPool.free == w.mbufPool.free + w.msgs[m].mbufs
    ensures w.conns[c].owner.Some? && force && w.msgs[m].peer.Some? ==>
              r.msgPool.free == w.msgPool.free + [w.msgs[m].peer.value, m] &&
              r.msgs[w.msgs[m].peer.value].peer.None?
    ensures w.conns[c].owner.Some? && force && w.msgs[m].peer.Some? && w.msgs[m].peer.value != m ==>
              r.mbufPool.free == w.mbufPool.free + w.msgs[w.msgs[m].peer.value].mbufs + w.msgs[m].mbufs &&
              r.msgs[w.msgs[m].peer.value].mbufs == []
    ensures forall x :: x in w.msgs && x != m && Some(x) != w.msgs[m].peer ==> r.msgs[x] == w.msgs[x]
  {
    if w.conns[c].owner.None? then w
    else
      if !force then FreeOwn(w, m)
      else
        var w1 := ForceDetach(w, m);
        var r := FreeOwn(w1, m);
        assert w.msgs[m].peer.Some? ==>
          r.msgPool.free == w.msgPool.free + [w.msgs[m].peer.value] + [m];
        assert w.msgs[m].peer.Some? ==>
          w.msgPool.free + [w.msgs[m].peer.value] + [m] == w.msgPool.free + [w.msgs[m].peer.value, m];
        r
  }

  /** Freeing a message keeps its done and error flags. */
  lemma FreeMsgKeepsFlags(w: World, c: ConnRef, m: MsgRef, force: bool)
    requires c in w.conns && PeerOk(w, m)
    requires w.conns[c].owner.Some? ==> w.pool.hasCtx
    ensures var r := FreeMsg(w, c, m, force);
      m in r.msgs && r.msgs[m].done == w.msgs[m].done && r.msgs[m].error == w.msgs[m].error
  {
    if w.conns[c].owner.Some? && force {
      var w1 := ForceDetach(w, m);
      if w.msgs[m].peer.Some? {
        var p := w.msgs[m].peer.value;
        var w0 := DetachPeer(w, m, p);
        assert w0.msgs[m].done == w.msgs[m].done && w0.msgs[m].error == w.msgs[m].error;
        assert w1 == Untimed(w0, m);
      }
      assert w1.msgs[m].done == w.msgs[m].done && w1.msgs[m].error == w.msgs[m].error;
      assert FreeMsg(w, c, m, force) == FreeOwn(w1, m);
    }
  }

  // ----------------------------------------------------- well-formedness

  /** Every reference in `q` names a segment of the world. */
  ghost predicate SegsIn(w: World, q: seq<MbufRef>) {
    forall i :: 0 <= i < |q| ==> q[i] in w.mbufs
  }

  /** Every reference in `q` names a message of the world. */
  ghost predicate MsgsIn(w: World, q: seq<MsgRef>) {
    forall i :: 0 <= i < |q| ==> q[i] in w.msgs
  }

  ghost predicate OptMsgIn(w: World, o: Option<MsgRef>) {
    o.Some? ==> o.value in w.msgs
  }

  ghost predicate ConnsIn(w: World, q: seq<ConnRef>) {
    forall i :: 0 <= i < |q| ==> q[i] in w.conns
  }

  /** Every segment has the cursors in order over one chunk of the current
      size. */
  ghost predicate SegmentsOk(w: World) {
    w.chunkSize >= MbufHeaderSize &&
    forall b :: b in w.mbufs ==> w.mbufs[b].Valid() && |w.mbufs[b].data| == w.chunkSize - MbufHeaderSize
  }

  /** A message's segments, peer and parse position name live records. */
  ghost predicate MsgOk(w: World, x: Msg) {
    SegsIn(w, x.mbufs) && OptMsgIn(w, x.peer) && (x.pos.Some? ==> x.pos.value.seg in w.mbufs)
  }

  ghost predicate ConnOk(w: World, c: Conn) {
    MsgsIn(w, c.imsgQ) && MsgsIn(w, c.omsgQ) && OptMsgIn(w, c.rmsg) && OptMsgIn(w, c.smsg)
  }

  /** The pointer graph of the context is closed: what any queue, pool or
      record points at exists. Every allocation and free of the model
      keeps this. */
  ghost predicate Wf(w: World) {
    SegmentsOk(w) &&
    SegsIn(w, w.mbufPool.free) && MsgsIn(w, w.msgPool.free) &&
    ConnsIn(w, w.cPool.free) && ConnsIn(w, w.sPool.free) && ConnsIn(w, w.pPool.free) &&
    ConnsIn(w, w.pool.cConnQ) &&
    (forall m :: m in w.msgs ==> MsgOk(w, w.msgs[m])) &&
    (forall c :: c in w.conns ==> ConnOk(w, w.conns[c])) &&
    (forall i, j :: (0 <= i < |w.pool.servers| && 0 <= j < |w.pool.servers[i].connQ| &&
                     w.pool.servers[i].connQ[j].Some?) ==> w.pool.servers[i].connQ[j].value in w.conns)
  }

  /** An edit of message records and the message and segment pools that
      keeps the set of messages, and points only at what exists, keeps the
      graph closed. */
  lemma WfAfterMsgEdit(w: World, r: World)
    requires Wf(w)
    requires r == w.(msgs := r.msgs, msgPool := r.msgPool, mbufPool := r.mbufPool, tree := r.tree)
    requires r.msgs.Keys == w.msgs.Keys
    requires forall x :: x in r.msgs ==> MsgOk(w, r.msgs[x])
    requires SegsIn(w, r.mbufPool.free) && MsgsIn(w, r.msgPool.free)
    ensures Wf(r)
  {
    forall x | x in r.msgs
      ensures MsgOk(r, r.msgs[x])
    {
      assert MsgOk(w, r.msgs[x]);
    }
    forall k | k in r.conns
      ensures ConnOk(r, r.conns[k])
    {
      assert ConnOk(w, w.conns[k]);
    }
  }

  lemma FreeMbufKeepsWf(w: World, m: MsgRef)
    requires Wf(w) && m in w.msgs
    ensures Wf(FreeMbuf(w, m, true))
  {
    var r := FreeMbuf(w, m, true);
    assert MsgOk(w, w.msgs[m]);
    forall x | x in r.msgs
      ensures MsgOk(w, r.msgs[x])
    {
      assert MsgOk(w, w.msgs[x]);
    }
    WfAfterMsgEdit(w, r);
  }

  lemma FreeOwnKeepsWf(w: World, m: MsgRef)
    requires Wf(w) && m in w.msgs
    ensures Wf(FreeOwn(w, m))
  {
    var w2 := FreeMbuf(w, m, true);
    FreeMbufKeepsWf(w, m);
    var r := w2.(msgPool := Free(w2.msgPool, Some(m)));
    assert r == FreeOwn(w, m);
    forall x | x in r.msgs
      ensures MsgOk(w2, r.msgs[x])
    {
      assert MsgOk(w2, w2.msgs[x]);
    }
    WfAfterMsgEdit(w2, r);
  }

  lemma UnlinkKeepsWf(w: World, m: MsgRef, p: MsgRef)
    requires Wf(w) && m in w.msgs && p in w.msgs
    ensures var ms := w.msgs[m := w.msgs[m].(peer := None)];
      Wf(w.(msgs := ms[p := ms[p].(peer := None)]))
  {
    var ms := w.msgs[m := w.msgs[m].(peer := None)];
    var w1 := w.(msgs := ms[p := ms[p].(peer := None)]);
    forall x | x in w1.msgs
      ensures MsgOk(w, w1.msgs[x])
    {
      assert MsgOk(w, w.msgs[x]);
    }
    WfAfterMsgEdit(w, w1);
  }

  lemma FreeMsgRefKeepsWf(w: World, m: MsgRef)
    requires Wf(w) && m in w.msgs
    ensures Wf(w.(msgPool := Free(w.msgPool, Some(m))))
  {
    var r := w.(msgPool := Free(w.msgPool, Some(m)));
    forall x | x in r.msgs
      ensures MsgOk(w, r.msgs[x])
    {
      assert MsgOk(w, w.msgs[x]);
    }
    WfAfterMsgEdit(w, r);
  }

  lemma DetachPeerKeepsWf(w: World, m: MsgRef, p: MsgRef)
    requires Wf(w) && m in w.msgs && p in w.msgs
    ensures Wf(DetachPeer(w, m, p))
  {
    var ms := w.msgs[m := w.msgs[m].(peer := None)];
    var w1 := w.(msgs := ms[p := ms[p].(peer := None)]);
    UnlinkKeepsWf(w, m, p);
    FreeMbufKeepsWf(w1, p);
    FreeMsgRefKeepsWf(FreeMbuf(w1, p, true), p);
  }

  lemma UntimedKeepsWf(w: World, m: MsgRef)
    requires Wf(w) && m in w.msgs
    ensures Wf(Untimed(w, m))
  {
    var r := Untimed(w, m);
    forall x | x in r.msgs
      ensures MsgOk(w, r.msgs[x])
    {
      assert MsgOk(w, w.msgs[x]);
    }
    WfAfterMsgEdit(w, r);
  }

  lemma ForceDetachKeepsWf(w: World, m: MsgRef)
    requires Wf(w) && m in w.msgs
    ensures PeerOk(w, m) && Wf(ForceDetach(w, m))
  {
    assert MsgOk(w, w.msgs[m]);
    match w.msgs[m].peer
    case None =>
      UntimedKeepsWf(w, m);
    case Some(p) =>
      DetachPeerKeepsWf(w, m, p);
      UntimedKeepsWf(DetachPeer(w, m, p), m);
  }

  /** freeMsg keeps the pointer graph closed. */
  lemma FreeMsgKeepsWf(w: World, c: ConnRef, m: MsgRef, force: bool)
    requires Wf(w) && c in w.conns && m in w.msgs
    requires w.conns[c].owner.Some? ==> w.pool.hasCtx
    ensures PeerOk(w, m) && Wf(FreeMsg(w, c, m, force))
  {
    assert MsgOk(w, w.msgs[m]);
    if w.conns[c].owner.Some? {
      if !force {
        FreeOwnKeepsWf(w, m);
      } else {
        ForceDetachKeepsWf(w, m);
        FreeOwnKeepsWf(ForceDetach(w, m), m);
      }
    }
  }

  // ---------------------------------------------------------- allocation

  /** msg_pool.alloc(): a recycled message comes back as it was freed; a
      new one, `made`, has the contents `blank` (an NcMsg right after
      `new`: no segments and a cleared rbnode part). */
  function AllocMsg(w: World, made: Option<MsgRef>, blank: Msg): (r: (World, Option<MsgRef>))
    requires made.Some? ==> made.value !in w.msgs
    requires blank.mbufs == [] && blank.key == 0 && blank.data.None?
    ensures w.msgPool.free != [] ==> r.1 == Some(w.msgPool.free[0]) && r.0.msgs == w.msgs
    ensures w.msgPool.free == [] ==> r.1 == made
    ensures w.msgPool.free == [] ==> r.0.msgs == (if made.Some? then w.msgs[made.value := blank] else w.msgs)
    ensures r.0 == w.(msgs := r.0.msgs, msgPool := r.0.msgPool)
    ensures r.0.msgPool == Alloc(w.msgPool, made).0
  {
    var (p, o) := Alloc(w.msgPool, made);
    var ms := if w.msgPool.free == [] && made.Some? then w.msgs[made.value := blank] else w.msgs;
    (w.(msgs := ms, msgPool := p), o)
  }

  /** mbuf_pool.alloc(): a recycled segment keeps its old cursors; a new
      one is an empty chunk of the current chunk size whose memory held
      `junk`. */
  function AllocMbuf(w: World, made: Option<MbufRef>, junk: seq<byte>): (r: (World, Option<MbufRef>))
    requires made.Some? ==> made.value !in w.mbufs
    requires w.chunkSize >= MbufHeaderSize && |junk| == w.chunkSize - MbufHeaderSize
    ensures w.mbufPool.free != [] ==> r.1 == Some(w.mbufPool.free[0]) && r.0.mbufs == w.mbufs
    ensures w.mbufPool.free == [] ==> r.1 == made
    ensures w.mbufPool.free == [] ==>
              r.0.mbufs == (if made.Some? then w.mbufs[made.value := NewMbuf(w.chunkSize, junk)] else w.mbufs)
    ensures r.0 == w.(mbufs := r.0.mbufs, mbufPool := r.0.mbufPool)
    ensures r.0.mbufPool == Alloc(w.mbufPool, made).0
  {
    var (p, o) := Alloc(w.mbufPool, made);
    var bs := if w.mbufPool.free == [] && made.Some? then w.mbufs[made.value := NewMbuf(w.chunkSize, junk)] else w.mbufs;
    (w.(mbufs := bs, mbufPool := p), o)
  }

  /** Which of the three connection pools. */
  datatype ConnPool = CPool | SPool | PPool

  function GetConnPool(w: World, k: ConnPool): Pool<ConnRef> {
    match k
    case CPool => w.cPool
    case SPool => w.sPool
    case PPool => w.pPool
  }

  function SetConnPool(w: World, k: ConnPool, p: Pool<ConnRef>): (r: World)
    ensures GetConnPool(r, k) == p
    ensures r.msgs == w.msgs && r.mbufs == w.mbufs && r.conns == w.conns && r.pool == w.pool
    ensures r.msgPool == w.msgPool && r.mbufPool == w.mbufPool && r.tree == w.tree
    ensures r.ids == w.ids && r.chunkSize == w.chunkSize
    ensures forall k' :: k' != k ==> GetConnPool(r, k') == GetConnPool(w, k')
  {
    match k
    case CPool => w.(cPool := p)
    case SPool => w.(sPool := p)
    case PPool => w.(pPool := p)
  }

  /** c_pool/s_pool/p_pool.alloc<RT>(): a recycled connection comes back
      as it was freed; a new one, `made`, is `blank`, a just-constructed
      connection of the class asked for. */
  function AllocConn(w: World, k: ConnPool, made: Option<ConnRef>, blank: Conn, role: Role): (r: (World, Option<ConnRef>))
    requires made.Some? ==> made.value !in w.conns
    requires Constructed(blank, role)
    ensures GetConnPool(w, k).free != [] ==> r.1 == Some(GetConnPool(w, k).free[0]) && r.0.conns == w.conns
    ensures GetConnPool(w, k).free == [] ==> r.1 == made
    ensures GetConnPool(w, k).free == [] ==>
              r.0.conns == (if made.Some? then w.conns[made.value := blank] else w.conns)
    ensures GetConnPool(r.0, k) == Alloc(GetConnPool(w, k), made).0
    ensures r.0.msgs == w.msgs && r.0.mbufs == w.mbufs && r.0.pool == w.pool && r.0.tree == w.tree
    ensures r.0.msgPool == w.msgPool && r.0.mbufPool == w.mbufPool && r.0.ids == w.ids
    ensures forall k' :: k' != k ==> GetConnPool(r.0, k') == GetConnPool(w, k')
  {
    var (p, o) := Alloc(GetConnPool(w, k), made);
    var cs := if GetConnPool(w, k).free == [] && made.Some? then w.conns[made.value := blank] else w.conns;
    (SetConnPool(w, k, p).(conns := cs), o)
  }

  /** Returns connection `c` to pool `k`. */
  function FreeConn(w: World, k: ConnPool, c: ConnRef): (r: World)
    ensures GetConnPool(r, k).free == GetConnPool(w, k).free + [c]
    ensures GetConnPool(r, k).nfree == U32(GetConnPool(w, k).nfree + 1)
    ensures r.msgs == w.msgs && r.mbufs == w.mbufs && r.conns == w.conns && r.pool == w.pool
    ensures r.msgPool == w.msgPool && r.mbufPool == w.mbufPool && r.tree == w.tree
    ensures r.ids == w.ids && r.chunkSize == w.chunkSize
  {
    SetConnPool(w, k, Free(GetConnPool(w, k), Some(c)))
  }

  /** Allocation keeps the pointer graph closed, given a blank message
      that points at nothing. */
  lemma AllocMsgKeepsWf(w: World, made: Option<MsgRef>, blank: Msg)
    requires Wf(w) && (made.Some? ==> made.value !in w.msgs)
    requires blank.mbufs == [] && blank.key == 0 && blank.data.None?
    requires blank.peer.None? && blank.pos.None?
    ensures Wf(AllocMsg(w, made, blank).0)
    ensures AllocMsg(w, made, blank).1.Some? ==> AllocMsg(w, made, blank).1.value in AllocMsg(w, made, blank).0.msgs
  {
    var r := AllocMsg(w, made, blank).0;
    assert w.msgs.Keys <= r.msgs.Keys;
    if w.msgPool.free != [] {
      assert w.msgPool.free[0] in w.msgs;
    }
    forall x | x in r.msgs
      ensures MsgOk(r, r.msgs[x])
    {
      if x in w.msgs && r.msgs[x] == w.msgs[x] {
        assert MsgOk(w, w.msgs[x]);
      }
    }
    forall k | k in r.conns
      ensures ConnOk(r, r.conns[k])
    {
      assert ConnOk(w, w.conns[k]);
    }
  }

  lemma AllocMbufKeepsWf(w: World, made: Option<MbufRef>, junk: seq<byte>)
    requires Wf(w) && (made.Some? ==> made.value !in w.mbufs)
    requires |junk| == w.chunkSize - MbufHeaderSize
    ensures Wf(AllocMbuf(w, made, junk).0)
    ensures AllocMbuf(w, made, junk).1.Some? ==> AllocMbuf(w, made, junk).1.value in AllocMbuf(w, made, junk).0.mbufs
  {
    var r := AllocMbuf(w, made, junk).0;
    assert w.mbufs.Keys <= r.mbufs.Keys;
    if w.mbufPool.free != [] {
      assert w.mbufPool.free[0] in w.mbufs;
    }
    forall x | x in r.msgs
      ensures MsgOk(r, r.msgs[x])
    {
      assert MsgOk(w, w.msgs[x]);
    }
    forall k | k in r.conns
      ensures ConnOk(r, r.conns[k])
    {
      assert ConnOk(w, w.conns[k]);
    }
  }

  lemma AllocConnKeepsWf(w: World, k: ConnPool, made: Option<ConnRef>, blank: Conn, role: Role)
    requires Wf(w) && (made.Some? ==> made.value !in w.conns)
    requires Constructed(blank, role)
    ensures Wf(AllocConn(w, k, made, blank, role).0)
    ensures AllocConn(w, k, made, blank, role).1.Some? ==>
              AllocConn(w, k, made, blank, role).1.value in AllocConn(w, k, made, blank, role).0.conns
  {
    var r := AllocConn(w, k, made, blank, role).0;
    assert w.conns.Keys <= r.conns.Keys;
    if GetConnPool(w, k).free != [] {
      assert GetConnPool(w, k).free[0] in w.conns;
    }
    assert ConnsIn(r, GetConnPool(r, k).free);
    forall x | x in r.msgs
      ensures MsgOk(r, r.msgs[x])
    {
      assert MsgOk(w, w.msgs[x]);
    }
    forall c | c in r.conns
      ensures ConnOk(r, r.conns[c])
    {
      if c in w.conns && r.conns[c] == w.conns[c] {
        assert ConnOk(w, w.conns[c]);
      }
    }
  }

  lemma FreeConnKeepsWf(w: World, k: ConnPool, c: ConnRef)
    requires Wf(w) && c in w.conns
    ensures Wf(FreeConn(w, k, c))
  {
    var r := FreeConn(w, k, c);
    assert ConnsIn(r, GetConnPool(r, k).free);
    assert forall k' :: k' != k ==> GetConnPool(r, k') == GetConnPool(w, k');
    forall x | x in r.msgs
      ensures MsgOk(r, r.msgs[x])
    {
      assert MsgOk(w, w.msgs[x]);
    }
    forall c | c in r.conns
      ensures ConnOk(r, r.conns[c])
    {
      assert ConnOk(w, w.conns[c]);
    }
  }

  /** Replacing a connection or message record by one that points only at
      what exists keeps the graph closed. */
  lemma WithConnKeepsWf(w: World, c: ConnRef, x: Conn)
    requires Wf(w) && c in w.conns && ConnOk(w, x)
    ensures Wf(WithConn(w, c, x))
  {
    var r := WithConn(w, c, x);
    forall m | m in r.msgs
      ensures MsgOk(r, r.msgs[m])
    {
      assert MsgOk(w, w.msgs[m]);
    }
    forall k | k in r.conns
      ensures ConnOk(r, r.conns[k])
    {
      if k != c {
        assert ConnOk(w, w.conns[k]);
      }
    }
  }

  lemma WithMsgKeepsWf(w: World, m: MsgRef, x: Msg)
    requires Wf(w) && m in w.msgs && MsgOk(w, x)
    ensures Wf(WithMsg(w, m, x))
  {
    var r := WithMsg(w, m, x);
    forall y | y in r.msgs
      ensures MsgOk(r, r.msgs[y])
    {
      if y != m {
        assert MsgOk(w, w.msgs[y]);
      }
    }
    forall k | k in r.conns
      ensures ConnOk(r, r.conns[k])
    {
      assert ConnOk(w, w.conns[k]);
    }
  }
}
