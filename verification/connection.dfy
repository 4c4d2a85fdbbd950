/** NcConn (nc_connection.h/.cpp): the event callback that dispatches to
    the error, receive, send and close steps; the receive and send loops
    shared by clients and servers; recvChain, which reads into the back
    segment of the message being received and runs the parser; and
    sendChain, which gathers the queued messages into one vectored write
    and then walks the written byte count back over them. */
module Connection {
  import opened Common
  import opened Util
  import opened Mbuf
  import opened Event
  import opened Pools
  import opened Store
  import opened Message
  import Epoll
  import Client
  import Proxy

  // ------------------------------------------------------------ callback

  /** The steps callback(events) runs: processError, processRecv,
      processSend and processClose. */
  datatype Action = HandleError | HandleRecv | HandleSend | HandleClose

  /** What a receive or send step left behind: its status and the done
      flag and error of the connection afterwards. */
  datatype After = After(status: int, done: bool, err: int)

  /** The condition after which callback closes the connection. */
  predicate Failed(a: After) {
    a.status != Ok || a.done || a.err != 0
  }

  predicate Has(events: bv32, e: bv32) {
    events & e != 0
  }

  /** callback(events): the status it returns and the steps it runs, in
      order, given what the receive and send steps would leave behind. */
  function Callback(hasCtx: bool, events: bv32, recv: After, send: After): (r: (int, seq<Action>))
    ensures !hasCtx ==> r == (Ok, [])
    ensures hasCtx && Has(events, EventErr) ==> r == (Error, [HandleError, HandleClose])
    ensures r.0 == Ok || r.0 == Error
    ensures r.0 == Ok <==> HandleClose !in r.1
    ensures HandleClose in r.1 ==> r.1[|r.1| - 1] == HandleClose && HandleClose !in r.1[..|r.1| - 1]
    ensures HandleError in r.1 ==> HandleRecv !in r.1 && HandleSend !in r.1
    ensures HandleRecv in r.1 <==> hasCtx && !Has(events, EventErr) && Has(events, EventRead)
    ensures HandleSend in r.1 <==>
      hasCtx && !Has(events, EventErr) && Has(events, EventWrite) &&
      !(Has(events, EventRead) && Failed(recv))
    ensures HandleRecv in r.1 && HandleSend in r.1 ==> r.1[0] == HandleRecv && r.1[1] == HandleSend
    ensures hasCtx && !Has(events, EventErr) ==>
      (r.0 == Ok <==>
         !(Has(events, EventRead) && Failed(recv)) && !(Has(events, EventWrite) && Failed(send)))
  {
    if !hasCtx then (Ok, [])
    else Steps(Has(events, EventErr), Has(events, EventRead), Has(events, EventWrite), Failed(recv), Failed(send))
  }

  /** The steps of callback once the context is known, from which events
      are set and whether the receive and send steps fail. */
  function Steps(err: bool, rd: bool, wr: bool, recvFails: bool, sendFails: bool): (r: (int, seq<Action>))
    ensures err ==> r == (Error, [HandleError, HandleClose])
    ensures r.0 == Ok || r.0 == Error
    ensures r.0 == Ok <==> HandleClose !in r.1
    ensures HandleClose in r.1 ==> r.1[|r.1| - 1] == HandleClose && HandleClose !in r.1[..|r.1| - 1]
    ensures HandleError in r.1 ==> HandleRecv !in r.1 && HandleSend !in r.1
    ensures HandleRecv in r.1 <==> !err && rd
    ensures HandleSend in r.1 <==> !err && wr && !(rd && recvFails)
    ensures HandleRecv in r.1 && HandleSend in r.1 ==> r.1[0] == HandleRecv && r.1[1] == HandleSend
    ensures !err ==> (r.0 == Ok <==> !(rd && recvFails) && !(wr && sendFails))
  {
    if err then (Error, [HandleError, HandleClose])
    else if rd && recvFails then (Error, [HandleRecv, HandleClose])
    else
      var pre := if rd then [HandleRecv] else [];
      if !wr then (Ok, pre)
      else if sendFails then (Error, pre + [HandleSend, HandleClose])
      else (Ok, pre + [HandleSend])
  }

  /** What every role's close needs (Client.Close asks the most). */
  ghost predicate CanClose(w: World, c: ConnRef) {
    HasContext(w, c) && PeersIn(w, w.conns[c].omsgQ) &&
    (w.conns[c].rmsg.Some? ==> PeerOk(w, w.conns[c].rmsg.value))
  }

  /** The virtual close(): the client and proxy overrides give the
      connection back to its pool; the server's is an empty placeholder
      in the source. The event flags and the error survive every role. */
  function RoleClose(w: World, c: ConnRef): (r: World)
    requires CanClose(w, c)
    ensures c in r.conns
    ensures r.conns[c].io.recvActive == w.conns[c].io.recvActive
    ensures r.conns[c].io.sendActive == w.conns[c].io.sendActive
    ensures r.conns[c].io.err == w.conns[c].io.err
    ensures w.conns[c].role != ServerRole ==> r.conns[c].owner.None? && r.conns[c].io.sd < 0
    ensures w.conns[c].role == ClientRole ==> r.cPool.free == w.cPool.free + [c]
    ensures w.conns[c].role == ProxyRole ==> r.pPool.free == w.pPool.free + [c] && r.pool.pConn.None?
    ensures w.conns[c].role == ServerRole ==> r == w
  {
    match w.conns[c].role
    case ClientRole => ClientClose(w, c)
    case ProxyRole => ProxyClose(w, c)
    case ServerRole => w
  }

  /** Closing a client keeps its event flags and error. */
  function ClientClose(w: World, c: ConnRef): (r: World)
    requires CanClose(w, c)
    ensures c in r.conns && KeepsFlags(w.conns[c].io, r.conns[c].io)
    ensures r.conns[c].owner.None? && r.conns[c].io.sd < 0
    ensures r.cPool.free == w.cPool.free + [c]
  {
    var r := Client.Close(w, c);
    if w.conns[c].io.sd >= 0 then
      assert r == Client.CloseOpen(w, c);
      assert r.conns[c].io == w.conns[c].io.(sd := -1);
      r
    else
      assert r.conns[c].io == w.conns[c].io;
      r
  }

  /** Closing the proxy keeps its event flags and error. */
  function ProxyClose(w: World, c: ConnRef): (r: World)
    requires CanClose(w, c)
    ensures c in r.conns && KeepsFlags(w.conns[c].io, r.conns[c].io)
    ensures r.conns[c].owner.None? && r.conns[c].io.sd < 0
    ensures r.pPool.free == w.pPool.free + [c] && r.pool.pConn.None?
  {
    var r := Proxy.Close(w, c);
    if w.conns[c].io.sd >= 0 then
      assert r.conns[c].io == w.conns[c].io.(sd := -1);
      r
    else
      assert r.conns[c].io == w.conns[c].io;
      r
  }

  /** The event flags and the error of a connection are the same. */
  predicate KeepsFlags(a: ConnIo, b: ConnIo) {
    b.recvActive == a.recvActive && b.sendActive == a.sendActive && b.err == a.err
  }

  /** processClose: the connection leaves the event set (a failing delConn
      is only logged), then the role's close runs. */
  function ProcessClose(w: World, c: ConnRef, delStatus: int): (r: World)
    requires CanClose(w, c)
    ensures c in r.conns
    ensures delStatus >= 0 ==> !r.conns[c].io.recvActive && !r.conns[c].io.sendActive
    ensures delStatus < 0 ==>
      r.conns[c].io.recvActive == w.conns[c].io.recvActive &&
      r.conns[c].io.sendActive == w.conns[c].io.sendActive
    ensures r.conns[c].io.err == w.conns[c].io.err
    ensures w.conns[c].role != ServerRole ==> r.conns[c].owner.None? && r.conns[c].io.sd < 0
    ensures w.conns[c].role == ServerRole ==>
      r.conns[c] == w.conns[c].(io := r.conns[c].io) && r.conns[c].io.sd == w.conns[c].io.sd &&
      r == w.(conns := r.conns) && r.conns.Keys == w.conns.Keys
  {
    var x := w.conns[c];
    var w1 := WithConn(w, c, x.(io := Epoll.DelConn(x.io, delStatus).1));
    assert CanClose(w1, c) by {
      assert forall i :: 0 <= i < |x.omsgQ| ==> PeerOk(w1, x.omsgQ[i]);
    }
    RoleClose(w1, c)
  }

  /** processError: the socket error (`errno` after getsockopt) is kept
      in the connection, then the connection is closed. */
  function ProcessError(w: World, c: ConnRef, errno: int, delStatus: int): (r: World)
    requires CanClose(w, c)
    ensures c in r.conns && r.conns[c].io.err == errno
    ensures w.conns[c].role != ServerRole ==> r.conns[c].owner.None? && r.conns[c].io.sd < 0
  {
    var x := w.conns[c];
    var w1 := WithConn(w, c, x.(io := x.io.(err := errno)));
    assert CanClose(w1, c) by {
      assert forall i :: 0 <= i < |x.omsgQ| ==> PeerOk(w1, x.omsgQ[i]);
    }
    ProcessClose(w1, c, delStatus)
  }

  // ------------------------------------------------- recvMsg and sendMsg

  /** One turn of the recvMsg/sendMsg loop: the message recvNext or
      sendNext hands out (None for NULL), the status of the chain call on
      it, and the ready flag the call leaves. */
  datatype Round = Round(msg: Option<MsgRef>, status: int, ready: bool)

  /** The loop shared by recvMsg and sendMsg: set the ready flag, then
      run chains until there is no message, a chain fails or the flag is
      cleared. The result is the status and the number of chain calls;
      None when the rounds run out first. */
  function Drive(rounds: seq<Round>): (r: Option<(int, nat)>)
    ensures r.Some? ==> r.value.1 <= |rounds|
    ensures r.Some? ==> forall i :: 0 <= i < r.value.1 ==> rounds[i].msg.Some?
    ensures r.Some? ==>
      (r.value.0 == Ok <==> forall i :: 0 <= i < r.value.1 ==> rounds[i].status == Ok)
    ensures r.Some? && r.value.0 != Ok ==> r.value.1 > 0 && rounds[r.value.1 - 1].status == r.value.0
    ensures r.Some? ==> forall i :: 0 <= i < r.value.1 - 1 ==> rounds[i].ready
    decreases |rounds|
  {
    if rounds == [] then None
    else if rounds[0].msg.None? then Some((Ok, 0))
    else if rounds[0].status != Ok then Some((rounds[0].status, 1))
    else if !rounds[0].ready then Some((Ok, 1))
    else match Drive(rounds[1..])
      case None => None
      case Some((s, k)) => Some((s, k + 1))
  }

  /** The loop stops at the first chain that clears the ready flag. */
  lemma DriveStopsWhenNotReady(rounds: seq<Round>, k: nat)
    requires k < |rounds|
    requires forall i :: 0 <= i <= k ==> rounds[i].msg.Some? && rounds[i].status == Ok
    requires forall i :: 0 <= i < k ==> rounds[i].ready
    requires !rounds[k].ready
    ensures Drive(rounds) == Some((Ok, k + 1))
    decreases k
  {
    if k > 0 {
      DriveStopsWhenNotReady(rounds[1..], k - 1);
    }
  }

  /** sendMsg of a role: the proxy override sends nothing and reports OK;
      clients and servers run the shared loop. */
  function SendMsg(role: Role, rounds: seq<Round>): (r: Option<(int, nat)>)
    ensures role == ProxyRole ==> r == Some((Ok, 0))
    ensures role != ProxyRole && r.Some? ==>
      r.value.1 <= |rounds| &&
      (r.value.0 == Ok <==> forall i :: 0 <= i < r.value.1 ==> rounds[i].status == Ok)
  {
    if role == ProxyRole then Some((Ok, 0)) else Drive(rounds)
  }

  // ----------------------------------------------------------- recvChain

  /** Lines 177-192: the segment recv reads into. The back segment is
      used unless there is none or it is full; then a segment is taken
      from the pool, pushed, and the parse position moved to its start. */
  function ReadSegment(w: World, m: MsgRef, made: Option<MbufRef>, junk: seq<byte>)
    : (r: (World, Option<MbufRef>))
    requires SegsOk(w, m)
    requires made.Some? ==> made.value !in w.mbufs
    requires |junk| == w.chunkSize - MbufHeaderSize
    ensures SegsOk(r.0, m) && r.0.conns == w.conns && r.0.msgs.Keys == w.msgs.Keys
    ensures forall x :: x in w.msgs && x != m ==> r.0.msgs[x] == w.msgs[x]
    ensures forall b :: b in w.mbufs ==> b in r.0.mbufs && r.0.mbufs[b] == w.mbufs[b]
    ensures r.1.Some? ==> r.1 == Back(r.0.msgs[m].mbufs)
    ensures var segs := w.msgs[m].mbufs;
      Back(segs).None? || IsFull(w.mbufs[Back(segs).value]) ==>
        r.1 == AllocMbuf(w, made, junk).1 && r.0.mbufs == AllocMbuf(w, made, junk).0.mbufs
    ensures var segs := w.msgs[m].mbufs;
      var grow := Back(segs).None? || IsFull(w.mbufs[Back(segs).value]);
      (r.1.None? <==> grow && AllocMbuf(w, made, junk).1.None?) &&
      (r.1.None? ==> r.0.msgs == w.msgs) &&
      (r.1.Some? ==>
         r.0.msgs[m] == (if grow then w.msgs[m].(mbufs := segs + [r.1.value],
                                                  pos := Some(Cursor(r.1.value, r.0.mbufs[r.1.value].pos)))
                         else w.msgs[m]))
  {
    var segs := w.msgs[m].mbufs;
    var back := Back(segs);
    if back.Some? && !IsFull(w.mbufs[back.value]) then (w, back)
    else
      var (w1, buf) := AllocMbuf(w, made, junk);
      assert SegsIn(w1, segs) && SegsIn(w1, w1.mbufPool.free) by {
        assert forall i :: 0 <= i < |w.mbufPool.free| ==> w.mbufPool.free[i] in w.mbufs;
      }
      if buf.None? then (w1, None)
      else
        var b := buf.value;
        assert b in w1.mbufs;
        var w2 := WithMsg(w1, m, w1.msgs[m].(mbufs := segs + [b], pos := Some(Cursor(b, w1.mbufs[b].pos))));
        assert SegsIn(w2, w2.msgs[m].mbufs);
        (w2, buf)
  }

  /** What recvChain meets beyond the world: the segment `new` would give
      and the bytes its fresh memory holds, the outcomes of recv(2), and
      the bytes the kernel delivers, at least a chunk's worth. */
  datatype RecvEnv = RecvEnv(made: Option<MbufRef>, junk: seq<byte>, outs: seq<Io>, bytes: seq<byte>)

  ghost predicate RecvEnvOk(w: World, env: RecvEnv) {
    (env.made.Some? ==> env.made.value !in w.mbufs) &&
    |env.junk| == w.chunkSize - MbufHeaderSize && |env.bytes| >= w.chunkSize - MbufHeaderSize
  }

  /** The read part of recvChain: no segment could be had, or recv
      returned `n` (negative for EAGAIN and errors). */
  datatype Read = NoSegment(w: World) | Got(n: int, w: World)

  /** What recvChain returns when it stops before parsing: ENOMEM without
      a segment, OK on EAGAIN, ERROR on any other failed read. None means
      the read succeeded and the parser runs next. */
  function ReadStatus(r: Read): (s: Option<int>)
    ensures r.NoSegment? ==> s == Some(NoMem)
    ensures r.Got? && r.n >= 0 ==> s.None?
    ensures r.Got? && r.n < 0 ==> s.Some? && (s.value == Ok <==> r.n == EventAgain)
    ensures s.Some? ==> s.value == Ok || s.value == Error || s.value == NoMem
  {
    match r
    case NoSegment(_) => Some(NoMem)
    case Got(n, _) => if n >= 0 then None else if n == EventAgain then Some(Ok) else Some(Error)
  }

  /** Lines 194-208 on the chosen segment `b`: recv into its room; a
      failed read changes no cursor; a read of `n >= 0` bytes places them
      after the segment's content, advances last by `n` and sets (not adds
      to) the message length. */
  function ReadInto(w: World, c: ConnRef, m: MsgRef, b: MbufRef, outs: seq<Io>, bytes: seq<byte>)
    : (r: Option<Read>)
    requires c in w.conns && SegsOk(w, m) && b in w.mbufs
    requires |bytes| >= w.chunkSize - MbufHeaderSize
    ensures r.Some? ==> r.value.Got? && r.value.n <= Size(w.mbufs[b])
    ensures r.Some? ==> SegsOk(r.value.w, m) && r.value.w.msgs.Keys == w.msgs.Keys
    ensures r.Some? ==>
      c in r.value.w.conns && r.value.w.conns == w.conns[c := w.conns[c].(io := r.value.w.conns[c].io)]
    ensures r.Some? && r.value.n < 0 ==> r.value.w.msgs == w.msgs && r.value.w.mbufs == w.mbufs
    ensures r.Some? && r.value.n >= 0 ==>
      var n := r.value.n;
      b in r.value.w.mbufs &&
      var y := r.value.w.mbufs[b];
      r.value.w.mbufs == w.mbufs[b := y] &&
      y.pos == w.mbufs[b].pos && y.last == w.mbufs[b].last + n &&
      Content(y) == Content(w.mbufs[b]) + bytes[..n] &&
      r.value.w.msgs == w.msgs[m := w.msgs[m].(mlen := U32(n))]
  {
    var x := w.conns[c];
    match Recv(x.io, Size(w.mbufs[b]), outs)
    case None => None
    case Some((n, io)) =>
      var w1 := WithConn(w, c, x.(io := io));
      if n < 0 then Some(Got(n, w1))
      else
        var y := Copy(w1.mbufs[b], bytes, n);
        var w2 := w1.(mbufs := w1.mbufs[b := y]);
        assert SegsOk(w2, m);
        Some(Got(n, WithMsg(w2, m, SetLength(w2.msgs[m], n))))
  }

  /** Lines 177-208: choose the segment, then read into it. */
  function ReadChain(w: World, c: ConnRef, m: MsgRef, env: RecvEnv): (r: Option<Read>)
    requires c in w.conns && SegsOk(w, m) && RecvEnvOk(w, env)
    ensures r.Some? ==> SegsOk(r.value.w, m) && r.value.w.msgs.Keys == w.msgs.Keys
    ensures r.Some? ==> r.value.w.conns.Keys == w.conns.Keys
    ensures var (w1, seg) := ReadSegment(w, m, env.made, env.junk);
      (seg.None? ==> r == Some(NoSegment(w1))) &&
      (seg.Some? ==> r == ReadInto(w1, c, m, seg.value, env.outs, env.bytes))
  {
    var (w1, seg) := ReadSegment(w, m, env.made, env.junk);
    if seg.None? then Some(NoSegment(w1))
    else ReadInto(w1, c, m, seg.value, env.outs, env.bytes)
  }

  /** Growing the back segment of a queue in which it appears once grows
      the queue's content by the same bytes. */
  lemma GrowBack(bs: map<MbufRef, Mbuf>, segs: seq<MbufRef>, y: Mbuf, extra: seq<byte>)
    requires Live(bs, segs) && segs != [] && Distinct(segs) && y.Valid()
    requires Content(y) == Content(bs[segs[|segs| - 1]]) + extra
    ensures Live(bs[segs[|segs| - 1] := y], segs)
    ensures Contents(bs[segs[|segs| - 1] := y], segs) == Contents(bs, segs) + extra
  {
    var b := segs[|segs| - 1];
    var init := segs[..|segs| - 1];
    forall i | 0 <= i < |init|
      ensures init[i] != b
    {
      assert init[i] == segs[i];
    }
    ContentsReplaceBack(bs, segs, y);
  }

  /** A read into the back segment of a queue in which it appears once
      appends exactly the bytes read to the message's content. */
  lemma ReadIntoBackAppends(w: World, c: ConnRef, m: MsgRef, outs: seq<Io>, bytes: seq<byte>)
    requires c in w.conns && SegsOk(w, m) && |bytes| >= w.chunkSize - MbufHeaderSize
    requires w.msgs[m].mbufs != [] && Distinct(w.msgs[m].mbufs)
    ensures var segs := w.msgs[m].mbufs;
      var r := ReadInto(w, c, m, segs[|segs| - 1], outs, bytes);
      r.Some? && r.value.n >= 0 ==>
        r.value.w.msgs[m].mbufs == segs && Live(r.value.w.mbufs, segs) && Live(w.mbufs, segs) &&
        Contents(r.value.w.mbufs, segs) == Contents(w.mbufs, segs) + bytes[..r.value.n]
  {
    var segs := w.msgs[m].mbufs;
    var b := segs[|segs| - 1];
    var r := ReadInto(w, c, m, b, outs, bytes);
    SegsOkLive(w, m);
    if r.Some? && r.value.n >= 0 {
      var y := r.value.w.mbufs[b];
      assert r.value.w.mbufs == w.mbufs[b := y];
      assert Content(y) == Content(w.mbufs[b]) + bytes[..r.value.n];
      assert r.value.w.msgs[m].mbufs == segs;
      GrowBack(w.mbufs, segs, y, bytes[..r.value.n]);
    }
  }

  /** The segment recvChain chooses, from a pool of clean segments for a
      message whose segments are distinct, is the back of a still distinct
      queue with the same content. */
  lemma ReadSegmentClean(w: World, m: MsgRef, made: Option<MbufRef>, junk: seq<byte>)
    requires SegsOk(w, m) && CleanPool(w, m) && Distinct(w.msgs[m].mbufs)
    requires made.Some? ==> made.value !in w.mbufs
    requires |junk| == w.chunkSize - MbufHeaderSize
    ensures Live(w.mbufs, w.msgs[m].mbufs)
    ensures var (w1, seg) := ReadSegment(w, m, made, junk);
      var q := w1.msgs[m].mbufs;
      seg.Some? ==>
        q != [] && Distinct(q) && Live(w1.mbufs, q) && Contents(w1.mbufs, q) == Contents(w.mbufs, w.msgs[m].mbufs)
  {
    var segs := w.msgs[m].mbufs;
    SegsOkLive(w, m);
    if Back(segs).None? || IsFull(w.mbufs[Back(segs).value]) {
      ReadSegmentPushes(w, m, made, junk);
    } else {
      var (w1, seg) := ReadSegment(w, m, made, junk);
      assert w1 == w;
    }
  }

  /** The growing case of ReadSegmentClean: a clean segment from the pool
      is pushed at the back and adds no content. */
  lemma ReadSegmentPushes(w: World, m: MsgRef, made: Option<MbufRef>, junk: seq<byte>)
    requires SegsOk(w, m) && CleanPool(w, m) && Distinct(w.msgs[m].mbufs)
    requires made.Some? ==> made.value !in w.mbufs
    requires |junk| == w.chunkSize - MbufHeaderSize
    requires var segs := w.msgs[m].mbufs; Back(segs).None? || IsFull(w.mbufs[Back(segs).value])
    ensures Live(w.mbufs, w.msgs[m].mbufs)
    ensures var (w1, seg) := ReadSegment(w, m, made, junk);
      var q := w1.msgs[m].mbufs;
      seg.Some? ==>
        q != [] && Distinct(q) && Live(w1.mbufs, q) && Contents(w1.mbufs, q) == Contents(w.mbufs, w.msgs[m].mbufs)
  {
    var segs := w.msgs[m].mbufs;
    SegsOkLive(w, m);
    var (w1, seg) := ReadSegment(w, m, made, junk);
    if seg.Some? {
      SegsOkLive(w1, m);
      ContentsFrame(w.mbufs, w1.mbufs, segs);
      var b := seg.value;
      AllocMbufClean(w, m, made, junk);
      var q := segs + [b];
      assert w1.msgs[m].mbufs == q;
      DistinctPush(segs, b);
      assert q[..|q| - 1] == segs;
      assert Content(w1.mbufs[b]) == [];
      assert Contents(w1.mbufs, q) == Contents(w1.mbufs, segs) + Content(w1.mbufs[b]);
    }
  }

  /** recvChain's read, from a pool of clean segments into a message whose
      segments are distinct: the queue stays distinct, the bytes read are
      appended to the content, and the length becomes the count read. */
  lemma ReadChainAppends(w: World, c: ConnRef, m: MsgRef, env: RecvEnv)
    requires c in w.conns && SegsOk(w, m) && RecvEnvOk(w, env)
    requires CleanPool(w, m) && Distinct(w.msgs[m].mbufs)
    ensures Live(w.mbufs, w.msgs[m].mbufs)
    ensures var r := ReadChain(w, c, m, env);
      r.Some? && r.value.Got? && r.value.n >= 0 ==>
        var q := r.value.w.msgs[m].mbufs;
        Distinct(q) && Live(r.value.w.mbufs, q) &&
        Contents(r.value.w.mbufs, q) == Contents(w.mbufs, w.msgs[m].mbufs) + env.bytes[..r.value.n] &&
        r.value.w.msgs[m].mlen == U32(r.value.n)
  {
    ReadSegmentClean(w, m, env.made, env.junk);
    var (w1, seg) := ReadSegment(w, m, env.made, env.junk);
    if seg.Some? {
      var q := w1.msgs[m].mbufs;
      assert seg.value == q[|q| - 1];
      var r := ReadInto(w1, c, m, q[|q| - 1], env.outs, env.bytes);
      assert ReadChain(w, c, m, env) == r;
      ReadIntoBackAppends(w1, c, m, env.outs, env.bytes);
      if r.Some? && r.value.n >= 0 {
        assert r.value.w.msgs[m] == w1.msgs[m].(mlen := U32(r.value.n));
      }
    }
  }

  // ------------------------------------------------------ the parse loop

  /** One turn of recvChain's parse loop: the status of msg->parse and
      the message recvNext(false) hands out next (None for NULL). */
  datatype ParseRound = ParseRound(status: int, next: Option<MsgRef>)

  /** Lines 210-229: parse the current message; stop with its status if
      that is not OK; stop with OK when recvNext gives nothing or the same
      message again; otherwise continue with the next message. The result
      is the final status and the number of parses run; None when the
      rounds run out first. */
  function ParseLoop(m: MsgRef, rounds: seq<ParseRound>): (r: Option<(int, nat)>)
    ensures r.Some? ==> 1 <= r.value.1 <= |rounds|
    ensures r.Some? ==>
      (r.value.0 == Ok <==> forall i :: 0 <= i < r.value.1 ==> rounds[i].status == Ok)
    ensures r.Some? && r.value.0 != Ok ==> rounds[r.value.1 - 1].status == r.value.0
    ensures r.Some? ==> forall i :: 0 <= i < r.value.1 - 1 ==> rounds[i].next.Some?
    ensures rounds != [] && rounds[0].status == Ok && rounds[0].next in {None, Some(m)} ==> r == Some((Ok, 1))
    decreases |rounds|
  {
    if rounds == [] then None
    else if rounds[0].status != Ok then Some((rounds[0].status, 1))
    else if rounds[0].next.None? || rounds[0].next == Some(m) then Some((Ok, 1))
    else match ParseLoop(rounds[0].next.value, rounds[1..])
      case None => None
      case Some((s, k)) => Some((s, k + 1))
  }

  // ----------------------------------------------------- sendChain: gather

  /** The rest of a live queue is live. */
  lemma LiveTail(bs: map<MbufRef, Mbuf>, segs: seq<MbufRef>)
    requires Live(bs, segs) && segs != []
    ensures Live(bs, segs[1..]) && Live(bs, segs[..|segs| - 1])
  {
    assert forall i :: 0 <= i < |segs[1..]| ==> segs[1..][i] == segs[i + 1];
    assert forall i :: 0 <= i < |segs| - 1 ==> segs[..|segs| - 1][i] == segs[i];
  }

  /** Contents read from the front: the first segment, then the rest. */
  lemma {:induction false} ContentsFront(bs: map<MbufRef, Mbuf>, segs: seq<MbufRef>)
    requires Live(bs, segs) && segs != []
    ensures Live(bs, segs[1..])
    ensures Contents(bs, segs) == Content(bs[segs[0]]) + Contents(bs, segs[1..])
    decreases |segs|
  {
    LiveTail(bs, segs);
    if |segs| > 1 {
      var init := segs[..|segs| - 1];
      var tail := segs[1..];
      var last := segs[|segs| - 1];
      ContentsFront(bs, init);
      LiveTail(bs, tail);
      assert init[1..] == tail[..|tail| - 1];
      assert tail[|tail| - 1] == last;
      assert Contents(bs, tail) == Contents(bs, init[1..]) + Content(bs[last]);
      assert Contents(bs, segs) == Contents(bs, init) + Content(bs[last]);
    } else {
      assert segs[1..] == [] && segs[..0] == [];
      assert Contents(bs, segs) == Contents(bs, segs[..0]) + Content(bs[segs[0]]);
    }
  }

  /** Total read from the front: the first segment, then the rest. */
  lemma {:induction false} TotalFront(bs: map<MbufRef, Mbuf>, segs: seq<MbufRef>)
    requires Live(bs, segs) && segs != []
    ensures Live(bs, segs[1..])
    ensures Total(bs, segs) == Length(bs[segs[0]]) + Total(bs, segs[1..])
    decreases |segs|
  {
    LiveTail(bs, segs);
    if |segs| > 1 {
      var init := segs[..|segs| - 1];
      var tail := segs[1..];
      TotalFront(bs, init);
      LiveTail(bs, tail);
      assert init[1..] == tail[..|tail| - 1];
      assert tail[|tail| - 1] == segs[|segs| - 1];
    } else {
      assert segs[1..] == [] && segs[..0] == [];
    }
  }

  lemma ContentsCons(bs: map<MbufRef, Mbuf>, segs: seq<MbufRef>)
    requires Live(bs, segs) && segs != []
    ensures Live(bs, segs[1..])
    ensures Contents(bs, segs) == Content(bs[segs[0]]) + Contents(bs, segs[1..])
    ensures Total(bs, segs) == Length(bs[segs[0]]) + Total(bs, segs[1..])
  {
    ContentsFront(bs, segs);
    TotalFront(bs, segs);
  }

  /** One iovec: `len` bytes of segment `seg`, starting at its pos. */
  datatype Iov = Iov(seg: MbufRef, len: nat)

  /** NC_IOV_MAX on Linux (nc_util.h), and SSIZE_MAX of a 64-bit build:
      the byte ceiling of one vectored write. */
  const IovMax: nat := 128
  const SsizeMax: nat := 0x7fff_ffff_ffff_ffff

  /** The iovec for every non-empty segment of a queue, in queue order,
      each covering the segment's whole content: what gathering a queue
      gives when no limit is hit. */
  function Pieces(bs: map<MbufRef, Mbuf>, segs: seq<MbufRef>): (r: seq<Iov>)
    requires Live(bs, segs)
    decreases |segs|
  {
    if segs == [] then []
    else
      assert Live(bs, segs[1..]) by {
        assert forall i :: 0 <= i < |segs[1..]| ==> segs[1..][i] == segs[i + 1];
      }
      var b := bs[segs[0]];
      (if IsEmpty(b) then [] else [Iov(segs[0], Length(b))]) + Pieces(bs, segs[1..])
  }

  /** A queue has no iovec exactly when it has no bytes. */
  lemma {:induction false} PiecesNone(bs: map<MbufRef, Mbuf>, segs: seq<MbufRef>)
    requires Live(bs, segs)
    ensures Pieces(bs, segs) == [] <==> Total(bs, segs) == 0
    decreases |segs|
  {
    if segs != [] {
      ContentsCons(bs, segs);
      PiecesNone(bs, segs[1..]);
    }
  }

  /** The inner loop of the gather (lines 253-277) over one segment queue:
      empty segments are skipped and every other one adds an iovec of its
      length, cut so that the running total `nsend` stays within
      SSIZE_MAX; the loop ends with the queue or at the ceiling. With
      `checkIov` it also ends once IovMax iovecs are taken, a test the
      source makes only after the loop. */
  function GatherSegs(bs: map<MbufRef, Mbuf>, segs: seq<MbufRef>, nsend: nat, iovs: seq<Iov>, checkIov: bool)
    : (r: (seq<Iov>, nat))
    requires Live(bs, segs) && nsend <= SsizeMax
    ensures nsend <= r.1 <= SsizeMax
    ensures |iovs| <= |r.0| && r.0[..|iovs|] == iovs
    ensures checkIov && |iovs| <= IovMax ==> |r.0| <= IovMax
    ensures r.1 - nsend <= Total(bs, segs)
    decreases |segs|
  {
    if segs == [] || nsend >= SsizeMax || (checkIov && |iovs| >= IovMax) then (iovs, nsend)
    else
      ContentsCons(bs, segs);
      var b := bs[segs[0]];
      if IsEmpty(b) then GatherSegs(bs, segs[1..], nsend, iovs, checkIov)
      else
        var len := if nsend + Length(b) > SsizeMax then SsizeMax - nsend else Length(b);
        var iovs' := iovs + [Iov(segs[0], len)];
        var r := GatherSegs(bs, segs[1..], nsend + len, iovs', checkIov);
        assert r.0[..|iovs|] == r.0[..|iovs'|][..|iovs|];
        r
  }

  /** Gathering stops with nothing added when the queue has no bytes. */
  lemma {:induction false} GatherSegsNothing(bs: map<MbufRef, Mbuf>, segs: seq<MbufRef>, nsend: nat,
                                             iovs: seq<Iov>, checkIov: bool)
    requires Live(bs, segs) && nsend <= SsizeMax && Total(bs, segs) == 0
    ensures Pieces(bs, segs) == []
    ensures GatherSegs(bs, segs, nsend, iovs, checkIov) == (iovs, nsend)
    decreases |segs|
  {
    PiecesNone(bs, segs);
    if segs != [] && !(nsend >= SsizeMax || (checkIov && |iovs| >= IovMax)) {
      ContentsCons(bs, segs);
      assert IsEmpty(bs[segs[0]]);
      GatherSegsNothing(bs, segs[1..], nsend, iovs, checkIov);
    }
  }

  /** One step of the inner loop over an empty segment: it is skipped. */
  lemma GatherSegsSkip(bs: map<MbufRef, Mbuf>, segs: seq<MbufRef>, nsend: nat, iovs: seq<Iov>, checkIov: bool)
    requires Live(bs, segs) && segs != [] && nsend < SsizeMax && !(checkIov && |iovs| >= IovMax)
    requires IsEmpty(bs[segs[0]])
    ensures Live(bs, segs[1..])
    ensures GatherSegs(bs, segs, nsend, iovs, checkIov) == GatherSegs(bs, segs[1..], nsend, iovs, checkIov)
    ensures Pieces(bs, segs) == Pieces(bs, segs[1..]) && Total(bs, segs) == Total(bs, segs[1..])
  {
    ContentsCons(bs, segs);
  }

  /** One step of the inner loop over a non-empty segment whose bytes fit
      under the ceiling: its whole content becomes the next iovec. */
  lemma GatherSegsTake(bs: map<MbufRef, Mbuf>, segs: seq<MbufRef>, nsend: nat, iovs: seq<Iov>, checkIov: bool)
    requires Live(bs, segs) && segs != [] && nsend < SsizeMax && !(checkIov && |iovs| >= IovMax)
    requires !IsEmpty(bs[segs[0]]) && nsend + Length(bs[segs[0]]) <= SsizeMax
    ensures Live(bs, segs[1..])
    ensures var x := Iov(segs[0], Length(bs[segs[0]]));
      GatherSegs(bs, segs, nsend, iovs, checkIov) ==
        GatherSegs(bs, segs[1..], nsend + Length(bs[segs[0]]), iovs + [x], checkIov) &&
      Pieces(bs, segs) == [x] + Pieces(bs, segs[1..]) &&
      Total(bs, segs) == Length(bs[segs[0]]) + Total(bs, segs[1..])
  {
    ContentsCons(bs, segs);
  }

  /** Without a limit in reach, gathering a queue adds its pieces and its
      total. */
  lemma {:induction false} GatherSegsExact(bs: map<MbufRef, Mbuf>, segs: seq<MbufRef>, nsend: nat, iovs: seq<Iov>,
                                           checkIov: bool)
    requires Live(bs, segs) && nsend + Total(bs, segs) <= SsizeMax
    requires checkIov ==> |iovs| + |Pieces(bs, segs)| <= IovMax
    ensures GatherSegs(bs, segs, nsend, iovs, checkIov) == (iovs + Pieces(bs, segs), nsend + Total(bs, segs))
    decreases |segs|, 1
  {
    PiecesNone(bs, segs);
    if segs == [] || nsend >= SsizeMax || (checkIov && |iovs| >= IovMax) {
      GatherSegsNothing(bs, segs, nsend, iovs, checkIov);
      assert iovs + Pieces(bs, segs) == iovs;
    } else if IsEmpty(bs[segs[0]]) {
      GatherSegsSkip(bs, segs, nsend, iovs, checkIov);
      GatherSegsExact(bs, segs[1..], nsend, iovs, checkIov);
    } else {
      GatherSegsExactTake(bs, segs, nsend, iovs, checkIov);
    }
  }

  lemma {:induction false} GatherSegsExactTake(bs: map<MbufRef, Mbuf>, segs: seq<MbufRef>, nsend: nat,
                                               iovs: seq<Iov>, checkIov: bool)
    requires Live(bs, segs) && nsend + Total(bs, segs) <= SsizeMax
    requires checkIov ==> |iovs| + |Pieces(bs, segs)| <= IovMax
    requires segs != [] && nsend < SsizeMax && !(checkIov && |iovs| >= IovMax) && !IsEmpty(bs[segs[0]])
    ensures GatherSegs(bs, segs, nsend, iovs, checkIov) == (iovs + Pieces(bs, segs), nsend + Total(bs, segs))
    decreases |segs|, 0
  {
    var len := Length(bs[segs[0]]);
    var x := Iov(segs[0], len);
    var rest := segs[1..];
    TotalFront(bs, segs);
    GatherSegsTake(bs, segs, nsend, iovs, checkIov);
    var p := Pieces(bs, rest);
    assert |iovs + [x]| + |p| == |iovs| + |Pieces(bs, segs)|;
    GatherSegsExact(bs, rest, nsend + len, iovs + [x], checkIov);
    assert iovs + [x] + p == iovs + ([x] + p);
  }

  /** Every message of `ms` exists and its segments are live. */
  ghost predicate Sendable(bs: map<MbufRef, Mbuf>, msgs: map<MsgRef, Msg>, ms: seq<MsgRef>) {
    forall i :: 0 <= i < |ms| ==> ms[i] in msgs && Live(bs, msgs[ms[i]].mbufs)
  }

  lemma SendableSlice(bs: map<MbufRef, Mbuf>, msgs: map<MsgRef, Msg>, ms: seq<MsgRef>, i: nat, j: nat)
    requires Sendable(bs, msgs, ms) && i <= j <= |ms|
    ensures Sendable(bs, msgs, ms[i..j])
  {
    forall k | 0 <= k < j - i
      ensures ms[i..j][k] in msgs && Live(bs, msgs[ms[i..j][k]].mbufs)
    {
      assert ms[i..j][k] == ms[i + k];
    }
  }

  /** The bytes of a list of messages. */
  function AllTotal(bs: map<MbufRef, Mbuf>, msgs: map<MsgRef, Msg>, ms: seq<MsgRef>): nat
    requires Sendable(bs, msgs, ms)
    decreases |ms|
  {
    if ms == [] then 0
    else
      SendableSlice(bs, msgs, ms, 1, |ms|);
      Total(bs, msgs[ms[0]].mbufs) + AllTotal(bs, msgs, ms[1..])
  }

  /** The iovecs of a list of messages when no limit is hit: each
      message's pieces, message after message. */
  function AllPieces(bs: map<MbufRef, Mbuf>, msgs: map<MsgRef, Msg>, ms: seq<MsgRef>): seq<Iov>
    requires Sendable(bs, msgs, ms)
    decreases |ms|
  {
    if ms == [] then []
    else
      SendableSlice(bs, msgs, ms, 1, |ms|);
      Pieces(bs, msgs[ms[0]].mbufs) + AllPieces(bs, msgs, ms[1..])
  }

  /** What the gather hands to the write: send_msgq, the iovecs and the
      byte count nsend. */
  datatype Gathered = Gathered(msgq: seq<MsgRef>, iovs: seq<Iov>, nsend: nat)

  /** The outer loop of the gather (lines 249-292). `ms` is the message
      passed in followed by the messages sendNext hands out, in order. Each
      message joins send_msgq and its queue is gathered; the loop ends once
      IovMax iovecs are taken, past the byte ceiling, or when sendNext has
      no more. As written the queue walked is always `fixed`, the first
      message's, bound once before the loop; the intended loop walks each
      message's own queue (`fixed` is None). */
  function GatherLoop(bs: map<MbufRef, Mbuf>, msgs: map<MsgRef, Msg>, ms: seq<MsgRef>,
                      fixed: Option<seq<MbufRef>>, checkIov: bool, g: Gathered): (r: Gathered)
    requires ms != [] && Sendable(bs, msgs, ms)
    requires fixed.Some? ==> Live(bs, fixed.value)
    requires g.nsend <= SsizeMax && (checkIov ==> |g.iovs| < IovMax)
    ensures g.nsend <= r.nsend <= SsizeMax
    ensures checkIov ==> |r.iovs| <= IovMax
    ensures |g.msgq| < |r.msgq| <= |g.msgq| + |ms|
    decreases |ms|
  {
    var m := ms[0];
    var g' := GatherOne(bs, if fixed.Some? then fixed.value else msgs[m].mbufs, m, checkIov, g);
    if |g'.iovs| >= IovMax || g'.nsend > SsizeMax || |ms| == 1 then g'
    else
      SendableSlice(bs, msgs, ms, 1, |ms|);
      GatherLoop(bs, msgs, ms[1..], fixed, checkIov, g')
  }

  /** send_msgq is the front of the messages offered, in order. */
  lemma {:induction false} GatherLoopPrefix(bs: map<MbufRef, Mbuf>, msgs: map<MsgRef, Msg>, ms: seq<MsgRef>,
                                            fixed: Option<seq<MbufRef>>, checkIov: bool, g: Gathered)
    requires ms != [] && Sendable(bs, msgs, ms)
    requires fixed.Some? ==> Live(bs, fixed.value)
    requires g.nsend <= SsizeMax && (checkIov ==> |g.iovs| < IovMax)
    ensures var r := GatherLoop(bs, msgs, ms, fixed, checkIov, g);
      r.msgq == g.msgq + ms[..|r.msgq| - |g.msgq|]
    decreases |ms|
  {
    var m := ms[0];
    var g' := GatherOne(bs, if fixed.Some? then fixed.value else msgs[m].mbufs, m, checkIov, g);
    var r := GatherLoop(bs, msgs, ms, fixed, checkIov, g);
    if |g'.iovs| >= IovMax || g'.nsend > SsizeMax || |ms| == 1 {
      assert r == g';
      assert ms[..1] == [m];
    } else {
      SendableSlice(bs, msgs, ms, 1, |ms|);
      GatherLoopPrefix(bs, msgs, ms[1..], fixed, checkIov, g');
      assert r == GatherLoop(bs, msgs, ms[1..], fixed, checkIov, g');
      PrefixJoin(g.msgq, ms, r.msgq);
    }
  }

  /** A queue that is `front`, then the head of `ms`, then a prefix of the
      rest of `ms`, is `front` followed by a prefix of `ms`. */
  lemma PrefixJoin(front: seq<MsgRef>, ms: seq<MsgRef>, q: seq<MsgRef>)
    requires ms != [] && |front| + 1 <= |q| <= |front| + |ms|
    requires q == (front + [ms[0]]) + ms[1..][..|q| - |front| - 1]
    ensures q == front + ms[..|q| - |front|]
  {
    var t := ms[1..][..|q| - |front| - 1];
    assert ms[..|q| - |front|] == [ms[0]] + t;
  }

  /** One turn of the outer loop: `m` joins send_msgq and `segs` is
      gathered. */
  function GatherOne(bs: map<MbufRef, Mbuf>, segs: seq<MbufRef>, m: MsgRef, checkIov: bool, g: Gathered)
    : (r: Gathered)
    requires Live(bs, segs) && g.nsend <= SsizeMax
    ensures r.msgq == g.msgq + [m]
    ensures g.nsend <= r.nsend <= SsizeMax && r.nsend - g.nsend <= Total(bs, segs)
    ensures checkIov && |g.iovs| <= IovMax ==> |r.iovs| <= IovMax
    ensures r == (var (iovs, nsend) := GatherSegs(bs, segs, g.nsend, g.iovs, checkIov);
                  Gathered(g.msgq + [m], iovs, nsend))
  {
    var (iovs, nsend) := GatherSegs(bs, segs, g.nsend, g.iovs, checkIov);
    Gathered(g.msgq + [m], iovs, nsend)
  }

  /** The intended gather takes no more bytes than the messages it puts
      into send_msgq hold. */
  lemma {:induction false} GatherLoopWithin(bs: map<MbufRef, Mbuf>, msgs: map<MsgRef, Msg>, ms: seq<MsgRef>,
                                            g: Gathered)
    requires ms != [] && Sendable(bs, msgs, ms)
    requires g.nsend <= SsizeMax && |g.iovs| < IovMax
    ensures var r := GatherLoop(bs, msgs, ms, None, true, g);
      Sendable(bs, msgs, ms[..|r.msgq| - |g.msgq|]) &&
      r.nsend - g.nsend <= AllTotal(bs, msgs, ms[..|r.msgq| - |g.msgq|])
    decreases |ms|
  {
    var m := ms[0];
    var g' := GatherOne(bs, msgs[m].mbufs, m, true, g);
    var (iovs, nsend) := (g'.iovs, g'.nsend);
    var r := GatherLoop(bs, msgs, ms, None, true, g);
    var k := |r.msgq| - |g.msgq|;
    SendableSlice(bs, msgs, ms, 0, k);
    assert ms[..k][0] == m;
    SendableSlice(bs, msgs, ms[..k], 1, k);
    if |iovs| >= IovMax || nsend > SsizeMax || |ms| == 1 {
      assert k == 1;
      assert ms[..k][1..] == [];
    } else {
      SendableSlice(bs, msgs, ms, 1, |ms|);
      GatherLoopWithin(bs, msgs, ms[1..], g');
      assert r == GatherLoop(bs, msgs, ms[1..], None, true, g');
      assert ms[..k][1..] == ms[1..][..k - 1];
    }
  }

  /** The gather as written: every message walks the first message's
      segment queue, and the iovec count is tested only between
      messages. */
  function GatherAsWritten(bs: map<MbufRef, Mbuf>, msgs: map<MsgRef, Msg>, ms: seq<MsgRef>): (r: Gathered)
    requires ms != [] && Sendable(bs, msgs, ms)
    ensures 1 <= |r.msgq| <= |ms| && r.msgq == ms[..|r.msgq|]
    ensures r.nsend <= SsizeMax
  {
    GatherLoopPrefix(bs, msgs, ms, Some(msgs[ms[0]].mbufs), false, Gathered([], [], 0));
    GatherLoop(bs, msgs, ms, Some(msgs[ms[0]].mbufs), false, Gathered([], [], 0))
  }

  /** The intended gather: each message's own queue, and never more than
      IovMax iovecs. */
  function Gather(bs: map<MbufRef, Mbuf>, msgs: map<MsgRef, Msg>, ms: seq<MsgRef>): (r: Gathered)
    requires ms != [] && Sendable(bs, msgs, ms)
    ensures 1 <= |r.msgq| <= |ms| && r.msgq == ms[..|r.msgq|]
    ensures |r.iovs| <= IovMax && r.nsend <= SsizeMax
    ensures Sendable(bs, msgs, r.msgq) && r.nsend <= AllTotal(bs, msgs, r.msgq)
  {
    GatherLoopWithin(bs, msgs, ms, Gathered([], [], 0));
    GatherLoopPrefix(bs, msgs, ms, None, true, Gathered([], [], 0));
    GatherLoop(bs, msgs, ms, None, true, Gathered([], [], 0))
  }

  // ---------------------------------------------------------------------
  // sendChain: what a write of nsent bytes does to the gathered messages
  // ---------------------------------------------------------------------

  lemma LiveSet(bs: map<MbufRef, Mbuf>, segs: seq<MbufRef>, b: MbufRef, x: Mbuf)
    requires Live(bs, segs) && b in bs && x.Valid()
    ensures Live(bs[b := x], segs)
  {
  }

  lemma DistinctTail(segs: seq<MbufRef>)
    requires Distinct(segs) && segs != []
    ensures Distinct(segs[1..]) && segs[0] !in segs[1..]
  {
  }

  /** A queue none of whose segments is `b` keeps its content when `b`
      changes. */
  lemma ContentsOutside(bs: map<MbufRef, Mbuf>, segs: seq<MbufRef>, b: MbufRef, x: Mbuf)
    requires Live(bs, segs) && b !in segs
    ensures Live(bs[b := x], segs)
    ensures Contents(bs[b := x], segs) == Contents(bs, segs) && Total(bs[b := x], segs) == Total(bs, segs)
  {
    ContentsFrame(bs, bs[b := x], segs);
  }

  /** The walk over one written message's segments (lines 322-347): an
      empty segment is passed over; one longer than what is left of nsent
      is advanced by it and the walk stops; any other is marked complete
      and nsent shrinks by its length. The result is the segments, what is
      left of nsent, and whether the walk reached the end of the queue. */
  function Consume(bs: map<MbufRef, Mbuf>, segs: seq<MbufRef>, nsent: nat): (r: (map<MbufRef, Mbuf>, nat, bool))
    requires Live(bs, segs)
    ensures r.0.Keys == bs.Keys && Live(r.0, segs)
    ensures forall b :: b in bs && b !in segs ==> r.0[b] == bs[b]
    ensures r.1 <= nsent && (!r.2 ==> r.1 == 0)
    decreases |segs|
  {
    if segs == [] then (bs, nsent, true)
    else
      var b := segs[0];
      var x := bs[b];
      LiveTail(bs, segs);
      if IsEmpty(x) then Consume(bs, segs[1..], nsent)
      else if nsent < Length(x) then
        LiveSet(bs, segs, b, SetPos(x, nsent));
        (bs[b := SetPos(x, nsent)], 0, false)
      else
        LiveSet(bs, segs[1..], b, SetComplete(x));
        Consume(bs[b := SetComplete(x)], segs[1..], nsent - Length(x))
  }

  /** On a queue without repeated segments the walk drops exactly the
      first min(nsent, total) bytes of the message, hands on the rest of
      nsent, and reaches the end of the queue exactly when nsent covers the
      whole message. */
  lemma {:induction false} ConsumeStream(bs: map<MbufRef, Mbuf>, segs: seq<MbufRef>, nsent: nat)
    requires Live(bs, segs) && Distinct(segs)
    ensures |Contents(bs, segs)| == Total(bs, segs)
    ensures var r := Consume(bs, segs, nsent);
      var t := Total(bs, segs);
      Contents(r.0, segs) == Contents(bs, segs)[Min(nsent, t)..] &&
      r.1 == nsent - Min(nsent, t) && (r.2 <==> nsent >= t)
    decreases |segs|, 2
  {
    ContentsLength(bs, segs);
    ConsumeCounts(bs, segs, nsent);
    if segs != [] {
      var x := bs[segs[0]];
      RegionsPartition(x);
      if IsEmpty(x) {
        ConsumeStreamSkip(bs, segs, nsent);
      } else if nsent < Length(x) {
        ConsumeStreamPartial(bs, segs, nsent);
      } else {
        ConsumeStreamWhole(bs, segs, nsent);
      }
    }
  }

  lemma {:induction false} ConsumeStreamSkip(bs: map<MbufRef, Mbuf>, segs: seq<MbufRef>, nsent: nat)
    requires Live(bs, segs) && Distinct(segs) && segs != [] && IsEmpty(bs[segs[0]])
    ensures |Contents(bs, segs)| == Total(bs, segs)
    ensures Contents(Consume(bs, segs, nsent).0, segs) == Contents(bs, segs)[Min(nsent, Total(bs, segs))..]
    decreases |segs|, 1
  {
    var b, rest := segs[0], segs[1..];
    var x := bs[b];
    var r := Consume(bs, segs, nsent);
    ContentsLength(bs, segs);
    DistinctTail(segs);
    ContentsCons(bs, segs);
    ContentsCons(r.0, segs);
    RegionsPartition(x);
    assert r == Consume(bs, rest, nsent);
    ConsumeStream(bs, rest, nsent);
    assert r.0[b] == x;
    assert Content(x) == [];
    assert Contents(bs, segs) == Contents(bs, rest) && Total(bs, segs) == Total(bs, rest);
    assert Contents(r.0, segs) == Contents(r.0, rest);
  }

  lemma ConsumeStreamPartial(bs: map<MbufRef, Mbuf>, segs: seq<MbufRef>, nsent: nat)
    requires Live(bs, segs) && Distinct(segs) && segs != []
    requires !IsEmpty(bs[segs[0]]) && nsent < Length(bs[segs[0]])
    ensures |Contents(bs, segs)| == Total(bs, segs)
    ensures Contents(Consume(bs, segs, nsent).0, segs) == Contents(bs, segs)[Min(nsent, Total(bs, segs))..]
  {
    var b, rest := segs[0], segs[1..];
    var x := bs[b];
    var y := SetPos(x, nsent);
    var r := Consume(bs, segs, nsent);
    ContentsLength(bs, segs);
    DistinctTail(segs);
    ContentsCons(bs, segs);
    assert r.0 == bs[b := y];
    ContentsCons(r.0, segs);
    ContentsOutside(bs, rest, b, y);
    assert Min(nsent, Total(bs, segs)) == nsent;
    DropWithin(Content(x), Contents(bs, rest), nsent);
  }

  lemma {:induction false} ConsumeStreamWhole(bs: map<MbufRef, Mbuf>, segs: seq<MbufRef>, nsent: nat)
    requires Live(bs, segs) && Distinct(segs) && segs != []
    requires !IsEmpty(bs[segs[0]]) && nsent >= Length(bs[segs[0]])
    ensures |Contents(bs, segs)| == Total(bs, segs)
    ensures Contents(Consume(bs, segs, nsent).0, segs) == Contents(bs, segs)[Min(nsent, Total(bs, segs))..]
    decreases |segs|, 1
  {
    var x, rest := bs[segs[0]], segs[1..];
    ContentsLength(bs, segs);
    ContentsCons(bs, segs);
    ConsumeWholeTail(bs, segs, nsent);
    SkipCovered(Content(x), Contents(bs, rest), nsent, Total(bs, rest));
  }

  /** Dropping `n` bytes from `a + c`, where `n` covers `a`, drops the
      remainder of `n` from `c`, capped at its length `t`. */
  lemma SkipCovered(a: seq<byte>, c: seq<byte>, n: nat, t: nat)
    requires |c| == t && n >= |a|
    ensures (a + c)[Min(n, |a| + t)..] == c[Min(n - |a|, t)..]
  {
    DropAfter(a, c, Min(n - |a|, t));
  }

  /** After a covered first segment the walk leaves exactly what it
      leaves of the rest of the queue. */
  lemma {:induction false} ConsumeWholeTail(bs: map<MbufRef, Mbuf>, segs: seq<MbufRef>, nsent: nat)
    requires Live(bs, segs) && Distinct(segs) && segs != []
    requires !IsEmpty(bs[segs[0]]) && nsent >= Length(bs[segs[0]])
    ensures Live(bs, segs[1..]) && |Contents(bs, segs[1..])| == Total(bs, segs[1..])
    ensures Contents(Consume(bs, segs, nsent).0, segs) ==
      Contents(bs, segs[1..])[Min(nsent - Length(bs[segs[0]]), Total(bs, segs[1..]))..]
    decreases |segs|, 0
  {
    var b, rest := segs[0], segs[1..];
    var x := bs[b];
    var y := SetComplete(x);
    var bs' := bs[b := y];
    var r := Consume(bs, segs, nsent);
    LiveTail(bs, segs);
    ContentsLength(bs, rest);
    DistinctTail(segs);
    RegionsPartition(y);
    ContentsOutside(bs, rest, b, y);
    ConsumeWholeUnfold(bs, segs, nsent);
    ConsumeStream(bs', rest, nsent - Length(x));
    assert r.0[b] == y;
    ContentsCons(r.0, segs);
    assert Content(y) == [];
    assert Contents(r.0, segs) == [] + Contents(r.0, rest) == Contents(r.0, rest);
  }

  /** What is left of nsent after the walk, and whether it reached the
      end of the queue. */
  lemma {:induction false} ConsumeCounts(bs: map<MbufRef, Mbuf>, segs: seq<MbufRef>, nsent: nat)
    requires Live(bs, segs) && Distinct(segs)
    ensures var r := Consume(bs, segs, nsent);
      var t := Total(bs, segs);
      r.1 == nsent - Min(nsent, t) && (r.2 <==> nsent >= t)
    decreases |segs|
  {
    if segs != [] {
      var b, rest := segs[0], segs[1..];
      var x := bs[b];
      DistinctTail(segs);
      ContentsCons(bs, segs);
      RegionsPartition(x);
      if IsEmpty(x) {
        LiveTail(bs, segs);
        assert Consume(bs, segs, nsent) == Consume(bs, rest, nsent);
        ConsumeCounts(bs, rest, nsent);
      } else if nsent >= Length(x) {
        var y := SetComplete(x);
        ContentsOutside(bs, rest, b, y);
        ConsumeWholeUnfold(bs, segs, nsent);
        ConsumeCounts(bs[b := y], rest, nsent - Length(x));
      }
    }
  }

  /** One step of the walk over a non-empty segment that nsent covers. */
  lemma ConsumeWholeUnfold(bs: map<MbufRef, Mbuf>, segs: seq<MbufRef>, nsent: nat)
    requires Live(bs, segs) && segs != []
    requires !IsEmpty(bs[segs[0]]) && nsent >= Length(bs[segs[0]])
    ensures Live(bs[segs[0] := SetComplete(bs[segs[0]])], segs[1..])
    ensures Consume(bs, segs, nsent) ==
      Consume(bs[segs[0] := SetComplete(bs[segs[0]])], segs[1..], nsent - Length(bs[segs[0]]))
  {
    LiveTail(bs, segs);
    LiveSet(bs, segs[1..], segs[0], SetComplete(bs[segs[0]]));
  }

  /** The segments of a list of messages, message after message. */
  function AllSegs(msgs: map<MsgRef, Msg>, ms: seq<MsgRef>): (r: seq<MbufRef>)
    requires forall i :: 0 <= i < |ms| ==> ms[i] in msgs
    decreases |ms|
  {
    if ms == [] then [] else msgs[ms[0]].mbufs + AllSegs(msgs, ms[1..])
  }

  /** The bytes of a list of messages, message after message. */
  function Flat(bs: map<MbufRef, Mbuf>, msgs: map<MsgRef, Msg>, ms: seq<MsgRef>): seq<byte>
    requires Sendable(bs, msgs, ms)
    decreases |ms|
  {
    if ms == [] then []
    else
      SendableSlice(bs, msgs, ms, 1, |ms|);
      Contents(bs, msgs[ms[0]].mbufs) + Flat(bs, msgs, ms[1..])
  }

  lemma DistinctSplit(a: seq<MbufRef>, b: seq<MbufRef>)
    requires Distinct(a + b)
    ensures Distinct(a) && Distinct(b) && forall x :: x in a ==> x !in b
  {
    forall i, j | 0 <= i < j < |a|
      ensures a[i] != a[j]
    {
      assert (a + b)[i] == a[i] && (a + b)[j] == a[j];
    }
    forall i, j | 0 <= i < j < |b|
      ensures b[i] != b[j]
    {
      assert (a + b)[|a| + i] == b[i] && (a + b)[|a| + j] == b[j];
    }
    forall i, j | 0 <= i < |a| && 0 <= j < |b|
      ensures a[i] != b[j]
    {
      assert (a + b)[i] == a[i] && (a + b)[|a| + j] == b[j];
    }
  }

  /** The messages' bytes are as many as their total, and both depend only
      on their own segments. */
  lemma {:induction false} FlatFrame(bs: map<MbufRef, Mbuf>, bs': map<MbufRef, Mbuf>, msgs: map<MsgRef, Msg>,
                                     ms: seq<MsgRef>)
    requires Sendable(bs, msgs, ms)
    requires forall b :: b in AllSegs(msgs, ms) && b in bs ==> b in bs' && bs'[b] == bs[b]
    ensures Sendable(bs', msgs, ms)
    ensures Flat(bs', msgs, ms) == Flat(bs, msgs, ms) && AllTotal(bs', msgs, ms) == AllTotal(bs, msgs, ms)
    ensures |Flat(bs, msgs, ms)| == AllTotal(bs, msgs, ms)
    decreases |ms|
  {
    if ms != [] {
      var segs := msgs[ms[0]].mbufs;
      SendableSlice(bs, msgs, ms, 1, |ms|);
      assert Live(bs, segs);
      assert forall i :: 0 <= i < |segs| ==> segs[i] in AllSegs(msgs, ms);
      ContentsFrame(bs, bs', segs);
      ContentsLength(bs, segs);
      FlatFrame(bs, bs', msgs, ms[1..]);
      SendableSlice(bs', msgs, ms, 1, |ms|);
    }
  }

  /** Every segment still valid: every list of messages stays sendable. */
  ghost predicate KeepsValid(bs: map<MbufRef, Mbuf>, bs': map<MbufRef, Mbuf>) {
    bs'.Keys == bs.Keys && forall b :: b in bs && bs[b].Valid() ==> bs'[b].Valid()
  }

  lemma SendableKept(bs: map<MbufRef, Mbuf>, bs': map<MbufRef, Mbuf>, msgs: map<MsgRef, Msg>, ms: seq<MsgRef>)
    requires Sendable(bs, msgs, ms) && KeepsValid(bs, bs')
    ensures Sendable(bs', msgs, ms)
  {
    forall i | 0 <= i < |ms|
      ensures Live(bs', msgs[ms[i]].mbufs)
    {
      assert Live(bs, msgs[ms[i]].mbufs);
    }
  }

  /** Segments edited only within `segs`, and left valid there, keep every
      valid segment valid. */
  lemma KeepsValidWithin(bs: map<MbufRef, Mbuf>, bs': map<MbufRef, Mbuf>, segs: seq<MbufRef>)
    requires Live(bs', segs) && bs'.Keys == bs.Keys
    requires forall b :: b in bs && b !in segs ==> bs'[b] == bs[b]
    ensures KeepsValid(bs, bs')
  {
    forall b | b in bs && bs[b].Valid()
      ensures bs'[b].Valid()
    {
      if b in segs {
        var j :| 0 <= j < |segs| && segs[j] == b;
      }
    }
  }

  /** One message of send_msgq after the write (lines 315-357): with
      nothing left of nsent it is done exactly when its length is 0 and
      nothing changes; otherwise its segments are consumed. */
  function Settle(bs: map<MbufRef, Mbuf>, segs: seq<MbufRef>, mlen: nat, nsent: nat): (r: (map<MbufRef, Mbuf>, nat, bool))
    requires Live(bs, segs)
    ensures r.0.Keys == bs.Keys && Live(r.0, segs)
    ensures forall b :: b in bs && b !in segs ==> r.0[b] == bs[b]
    ensures nsent == 0 ==> r == (bs, 0, mlen == 0)
    ensures nsent > 0 ==> r == Consume(bs, segs, nsent)
  {
    if nsent == 0 then (bs, 0, mlen == 0) else Consume(bs, segs, nsent)
  }

  /** The walk over send_msgq after the write (lines 306-358): every
      message leaves the queue and is settled in turn. The result is the
      segments and the messages handed to sendDone, in order. */
  function Account(bs: map<MbufRef, Mbuf>, msgs: map<MsgRef, Msg>, msgq: seq<MsgRef>, nsent: nat)
    : (r: (map<MbufRef, Mbuf>, seq<MsgRef>))
    requires Sendable(bs, msgs, msgq)
    ensures KeepsValid(bs, r.0)
    ensures forall b :: b in bs && b !in AllSegs(msgs, msgq) ==> r.0[b] == bs[b]
    ensures nsent == 0 ==> r.0 == bs
    ensures |r.1| <= |msgq|
    decreases |msgq|
  {
    if msgq == [] then (bs, [])
    else
      var m := msgq[0];
      SendableSlice(bs, msgs, msgq, 1, |msgq|);
      var segs := msgs[m].mbufs;
      var (bs', left, done) := Settle(bs, segs, msgs[m].mlen, nsent);
      KeepsValidWithin(bs, bs', segs);
      SendableKept(bs, bs', msgs, msgq[1..]);
      var rest := Account(bs', msgs, msgq[1..], left);
      assert AllSegs(msgs, msgq) == segs + AllSegs(msgs, msgq[1..]);
      (rest.0, (if done then [m] else []) + rest.1)
  }

  /** Which messages a write of nsent bytes completes, read off the byte
      counts alone: the bytes go to the messages in queue order; a message
      is done when its bytes are all covered, and once nothing is left a
      message is done only if its length is 0. */
  ghost function Expected(bs: map<MbufRef, Mbuf>, msgs: map<MsgRef, Msg>, msgq: seq<MsgRef>, nsent: nat)
    : seq<MsgRef>
    requires Sendable(bs, msgs, msgq)
    decreases |msgq|
  {
    if msgq == [] then []
    else
      var m := msgq[0];
      assert Live(bs, msgs[m].mbufs);
      var t := Total(bs, msgs[m].mbufs);
      SendableSlice(bs, msgs, msgq, 1, |msgq|);
      (if (nsent == 0 && msgs[m].mlen == 0) || (0 < nsent && t <= nsent) then [m] else []) +
        Expected(bs, msgs, msgq[1..], nsent - Min(nsent, t))
  }

  lemma {:induction false} ExpectedFrame(bs: map<MbufRef, Mbuf>, bs': map<MbufRef, Mbuf>, msgs: map<MsgRef, Msg>,
                                         ms: seq<MsgRef>, nsent: nat)
    requires Sendable(bs, msgs, ms)
    requires forall b :: b in AllSegs(msgs, ms) && b in bs ==> b in bs' && bs'[b] == bs[b]
    ensures Sendable(bs', msgs, ms)
    ensures Expected(bs', msgs, ms, nsent) == Expected(bs, msgs, ms, nsent)
    decreases |ms|
  {
    FlatFrame(bs, bs', msgs, ms);
    if ms != [] {
      var segs := msgs[ms[0]].mbufs;
      SendableSlice(bs, msgs, ms, 1, |ms|);
      assert Live(bs, segs);
      assert forall i :: 0 <= i < |segs| ==> segs[i] in AllSegs(msgs, ms);
      ContentsFrame(bs, bs', segs);
      ExpectedFrame(bs, bs', msgs, ms[1..], nsent - Min(nsent, Total(bs, segs)));
    }
  }

  /** What a message's settling leaves the rest of the queue: the segments
      of the later messages are untouched. */
  lemma SettleSplit(bs: map<MbufRef, Mbuf>, msgs: map<MsgRef, Msg>, msgq: seq<MsgRef>, nsent: nat)
    requires Sendable(bs, msgs, msgq) && msgq != [] && Distinct(AllSegs(msgs, msgq))
    ensures var segs := msgs[msgq[0]].mbufs;
      var bs' := Settle(bs, segs, msgs[msgq[0]].mlen, nsent).0;
      Live(bs, segs) && Distinct(segs) && Distinct(AllSegs(msgs, msgq[1..])) &&
      Sendable(bs, msgs, msgq[1..]) && Sendable(bs', msgs, msgq[1..]) &&
      (forall b :: b in AllSegs(msgs, msgq[1..]) && b in bs ==> b in bs' && bs'[b] == bs[b])
  {
    var segs := msgs[msgq[0]].mbufs;
    assert AllSegs(msgs, msgq) == segs + AllSegs(msgs, msgq[1..]);
    DistinctSplit(segs, AllSegs(msgs, msgq[1..]));
    SendableSlice(bs, msgs, msgq, 1, |msgq|);
    assert Live(bs, segs);
    var bs' := Settle(bs, segs, msgs[msgq[0]].mlen, nsent).0;
    KeepsValidWithin(bs, bs', segs);
    SendableKept(bs, bs', msgs, msgq[1..]);
  }

  /** The walk hands to sendDone exactly the messages the byte counts say
      are done, in queue order. */
  lemma {:induction false} AccountDone(bs: map<MbufRef, Mbuf>, msgs: map<MsgRef, Msg>, msgq: seq<MsgRef>, nsent: nat)
    requires Sendable(bs, msgs, msgq) && Distinct(AllSegs(msgs, msgq))
    ensures Account(bs, msgs, msgq, nsent).1 == Expected(bs, msgs, msgq, nsent)
    decreases |msgq|
  {
    if msgq != [] {
      var m := msgq[0];
      var segs := msgs[m].mbufs;
      SettleSplit(bs, msgs, msgq, nsent);
      var (bs', left, done) := Settle(bs, segs, msgs[m].mlen, nsent);
      var t := Total(bs, segs);
      var head := if done then [m] else [];
      assert Account(bs, msgs, msgq, nsent).1 == head + Account(bs', msgs, msgq[1..], left).1;
      assert Expected(bs, msgs, msgq, nsent) ==
        (if (nsent == 0 && msgs[m].mlen == 0) || (0 < nsent && t <= nsent) then [m] else []) +
        Expected(bs, msgs, msgq[1..], nsent - Min(nsent, t));
      if nsent > 0 {
        ConsumeStream(bs, segs, nsent);
      }
      assert left == nsent - Min(nsent, t);
      assert done <==> (nsent == 0 && msgs[m].mlen == 0) || (0 < nsent && t <= nsent);
      AccountDone(bs', msgs, msgq[1..], left);
      ExpectedFrame(bs, bs', msgs, msgq[1..], left);
    }
  }

  /** A write of nsent bytes, no more than the queue holds, removes
      exactly the first nsent bytes of send_msgq's byte stream: what is
      left to send is the rest of the stream. */
  lemma {:induction false} AccountStream(bs: map<MbufRef, Mbuf>, msgs: map<MsgRef, Msg>, msgq: seq<MsgRef>, nsent: nat)
    requires Sendable(bs, msgs, msgq) && Distinct(AllSegs(msgs, msgq))
    requires nsent <= AllTotal(bs, msgs, msgq)
    ensures |Flat(bs, msgs, msgq)| == AllTotal(bs, msgs, msgq)
    ensures Sendable(Account(bs, msgs, msgq, nsent).0, msgs, msgq)
    ensures Flat(Account(bs, msgs, msgq, nsent).0, msgs, msgq) == Flat(bs, msgs, msgq)[nsent..]
    decreases |msgq|, 2
  {
    FlatFrame(bs, bs, msgs, msgq);
    var r := Account(bs, msgs, msgq, nsent);
    SendableKept(bs, r.0, msgs, msgq);
    if msgq != [] && nsent > 0 {
      AccountStreamStep(bs, msgs, msgq, nsent);
    }
  }

  lemma {:induction false} AccountStreamStep(bs: map<MbufRef, Mbuf>, msgs: map<MsgRef, Msg>, msgq: seq<MsgRef>,
                                             nsent: nat)
    requires Sendable(bs, msgs, msgq) && Distinct(AllSegs(msgs, msgq))
    requires 0 < nsent <= AllTotal(bs, msgs, msgq) && msgq != []
    ensures |Flat(bs, msgs, msgq)| == AllTotal(bs, msgs, msgq)
    ensures Sendable(Account(bs, msgs, msgq, nsent).0, msgs, msgq)
    ensures Flat(Account(bs, msgs, msgq, nsent).0, msgs, msgq) == Flat(bs, msgs, msgq)[nsent..]
    decreases |msgq|, 1
  {
    FlatFrame(bs, bs, msgs, msgq);
    var r := Account(bs, msgs, msgq, nsent);
    SendableKept(bs, r.0, msgs, msgq);
    var segs := msgs[msgq[0]].mbufs;
    SettleSplit(bs, msgs, msgq, nsent);
    SendableSlice(r.0, msgs, msgq, 1, |msgq|);
    AccountStreamParts(bs, msgs, msgq, nsent);
    var t := Total(bs, segs);
    ContentsLength(bs, segs);
    FlatFrame(bs, bs, msgs, msgq[1..]);
    assert AllTotal(bs, msgs, msgq) == t + AllTotal(bs, msgs, msgq[1..]);
    assert Flat(r.0, msgs, msgq) == Contents(r.0, segs) + Flat(r.0, msgs, msgq[1..]);
    assert Flat(bs, msgs, msgq) == Contents(bs, segs) + Flat(bs, msgs, msgq[1..]);
    SliceJoin(Contents(bs, segs), Flat(bs, msgs, msgq[1..]), nsent);
  }

  lemma SliceJoin(c: seq<byte>, f: seq<byte>, n: nat)
    requires n <= |c| + |f|
    ensures c[Min(n, |c|)..] + f[n - Min(n, |c|)..] == (c + f)[n..]
  {
    if n <= |c| {
      assert f[0..] == f;
      assert (c + f)[n..] == c[n..] + f;
    } else {
      assert c[|c|..] == [];
      assert (c + f)[n..] == f[n - |c|..];
    }
  }

  /** The two halves of one step: the first message loses the front of its
      bytes and the later messages lose what is left of nsent. */
  lemma {:induction false} AccountStreamParts(bs: map<MbufRef, Mbuf>, msgs: map<MsgRef, Msg>, msgq: seq<MsgRef>,
                                              nsent: nat)
    requires Sendable(bs, msgs, msgq) && Distinct(AllSegs(msgs, msgq))
    requires 0 < nsent <= AllTotal(bs, msgs, msgq) && msgq != []
    ensures var r := Account(bs, msgs, msgq, nsent);
      var segs := msgs[msgq[0]].mbufs;
      Live(bs, segs) && Sendable(bs, msgs, msgq[1..]) &&
      Live(r.0, segs) && Sendable(r.0, msgs, msgq[1..]) &&
      |Contents(bs, segs)| == Total(bs, segs) &&
      |Flat(bs, msgs, msgq[1..])| == AllTotal(bs, msgs, msgq[1..]) &&
      Contents(r.0, segs) == Contents(bs, segs)[Min(nsent, Total(bs, segs))..] &&
      Flat(r.0, msgs, msgq[1..]) == Flat(bs, msgs, msgq[1..])[nsent - Min(nsent, Total(bs, segs))..]
    decreases |msgq|, 0
  {
    var m, rest := msgq[0], msgq[1..];
    var segs := msgs[m].mbufs;
    SettleSplit(bs, msgs, msgq, nsent);
    var (bs', left, done) := Consume(bs, segs, nsent);
    ConsumeStream(bs, segs, nsent);
    var t := Total(bs, segs);
    FlatFrame(bs, bs', msgs, rest);
    FlatFrame(bs, bs, msgs, msgq);
    assert AllTotal(bs, msgs, msgq) == t + AllTotal(bs, msgs, rest);
    var r := Account(bs, msgs, msgq, nsent);
    assert r.0 == Account(bs', msgs, rest, left).0;
    AccountStream(bs', msgs, rest, left);
    SendableKept(bs, r.0, msgs, msgq);
    SendableSlice(r.0, msgs, msgq, 1, |msgq|);
    assert AllSegs(msgs, msgq) == segs + AllSegs(msgs, rest);
    DistinctSplit(segs, AllSegs(msgs, rest));
    ContentsFrame(bs', r.0, segs);
  }

  /** Below both limits the intended gather takes every message offered,
      each message's pieces in order, and all their bytes. */
  lemma {:induction false} GatherLoopExact(bs: map<MbufRef, Mbuf>, msgs: map<MsgRef, Msg>, ms: seq<MsgRef>,
                                           g: Gathered)
    requires ms != [] && Sendable(bs, msgs, ms)
    requires |g.iovs| + |AllPieces(bs, msgs, ms)| < IovMax
    requires g.nsend + AllTotal(bs, msgs, ms) <= SsizeMax
    ensures GatherLoop(bs, msgs, ms, None, true, g) ==
      Gathered(g.msgq + ms, g.iovs + AllPieces(bs, msgs, ms), g.nsend + AllTotal(bs, msgs, ms))
    decreases |ms|, 1
  {
    var m := ms[0];
    var segs := msgs[m].mbufs;
    assert Live(bs, segs);
    SendableSlice(bs, msgs, ms, 1, |ms|);
    var p, t := Pieces(bs, segs), Total(bs, segs);
    GatherSegsExact(bs, segs, g.nsend, g.iovs, true);
    if |ms| == 1 {
      assert ms == [m];
      assert AllPieces(bs, msgs, ms) == p && AllTotal(bs, msgs, ms) == t;
    } else {
      GatherLoopExactStep(bs, msgs, ms, g);
    }
  }

  lemma {:induction false} GatherLoopExactStep(bs: map<MbufRef, Mbuf>, msgs: map<MsgRef, Msg>, ms: seq<MsgRef>,
                                               g: Gathered)
    requires |ms| > 1 && Sendable(bs, msgs, ms)
    requires |g.iovs| + |AllPieces(bs, msgs, ms)| < IovMax
    requires g.nsend + AllTotal(bs, msgs, ms) <= SsizeMax
    ensures GatherLoop(bs, msgs, ms, None, true, g) ==
      Gathered(g.msgq + ms, g.iovs + AllPieces(bs, msgs, ms), g.nsend + AllTotal(bs, msgs, ms))
    decreases |ms|, 0
  {
    var m := ms[0];
    var segs := msgs[m].mbufs;
    assert Live(bs, segs);
    SendableSlice(bs, msgs, ms, 1, |ms|);
    var p, t := Pieces(bs, segs), Total(bs, segs);
    var rest := ms[1..];
    assert AllPieces(bs, msgs, ms) == p + AllPieces(bs, msgs, rest);
    assert AllTotal(bs, msgs, ms) == t + AllTotal(bs, msgs, rest);
    GatherSegsExact(bs, segs, g.nsend, g.iovs, true);
    var g' := Gathered(g.msgq + [m], g.iovs + p, g.nsend + t);
    assert GatherOne(bs, segs, m, true, g) == g';
    assert |g'.iovs| < IovMax && g'.nsend <= SsizeMax && |ms| != 1;
    assert GatherLoop(bs, msgs, ms, None, true, g) == GatherLoop(bs, msgs, rest, None, true, g');
    GatherLoopExact(bs, msgs, rest, g');
    ConcatAssoc(g.msgq, [m], rest);
    assert [m] + rest == ms;
    ConcatAssoc(g.iovs, p, AllPieces(bs, msgs, rest));
  }

  /** The intended gather of a queue below both limits sends it whole. */
  lemma GatherExact(bs: map<MbufRef, Mbuf>, msgs: map<MsgRef, Msg>, ms: seq<MsgRef>)
    requires ms != [] && Sendable(bs, msgs, ms)
    requires |AllPieces(bs, msgs, ms)| < IovMax && AllTotal(bs, msgs, ms) <= SsizeMax
    ensures Gather(bs, msgs, ms) == Gathered(ms, AllPieces(bs, msgs, ms), AllTotal(bs, msgs, ms))
  {
    GatherLoopExact(bs, msgs, ms, Gathered([], [], 0));
  }

  /** As written, a second message offered by sendNext contributes the
      first message's segments again: the iovecs hold the first message's
      pieces twice and nothing of the second. */
  lemma GatherAsWrittenRepeats(bs: map<MbufRef, Mbuf>, msgs: map<MsgRef, Msg>, ms: seq<MsgRef>)
    requires |ms| == 2 && Sendable(bs, msgs, ms)
    requires 2 * |Pieces(bs, msgs[ms[0]].mbufs)| < IovMax && 2 * Total(bs, msgs[ms[0]].mbufs) <= SsizeMax
    ensures var p := Pieces(bs, msgs[ms[0]].mbufs);
      var t := Total(bs, msgs[ms[0]].mbufs);
      GatherAsWritten(bs, msgs, ms) == Gathered(ms, p + p, t + t)
  {
    var segs := msgs[ms[0]].mbufs;
    assert Live(bs, segs);
    var p, t := Pieces(bs, segs), Total(bs, segs);
    GatherSegsExact(bs, segs, 0, [], false);
    GatherSegsExact(bs, segs, t, p, false);
    var g1 := Gathered([ms[0]], p, t);
    assert GatherOne(bs, segs, ms[0], false, Gathered([], [], 0)) == g1;
    SendableSlice(bs, msgs, ms, 1, 2);
    assert ms[1..] == [ms[1]];
    assert GatherLoop(bs, msgs, ms[1..], Some(segs), false, g1) == Gathered([ms[0], ms[1]], [] + p + p, t + t);
    assert [] + p == p && [ms[0], ms[1]] == ms;
  }

  /** As written, one message of more than IovMax non-empty segments fills
      more than IovMax iovecs: the inner loop never tests the count, and
      the array iov has IovMax entries. */
  lemma GatherAsWrittenOverflows(bs: map<MbufRef, Mbuf>, msgs: map<MsgRef, Msg>, m: MsgRef)
    requires m in msgs && Live(bs, msgs[m].mbufs)
    requires |Pieces(bs, msgs[m].mbufs)| > IovMax && Total(bs, msgs[m].mbufs) <= SsizeMax
    ensures |GatherAsWritten(bs, msgs, [m]).iovs| > IovMax
    ensures |Gather(bs, msgs, [m]).iovs| <= IovMax
  {
    var segs := msgs[m].mbufs;
    GatherSegsExact(bs, segs, 0, [], false);
    assert GatherAsWritten(bs, msgs, [m]).iovs == [] + Pieces(bs, segs);
  }

  /** The status sendChain returns from the byte count n (lines 360-365),
      as written: only a positive count or EAGAIN is success, so a call
      that had nothing to write, or wrote nothing, reports an error. */
  function SendStatusAsWritten(n: int): (r: int)
    ensures r == Ok || r == Error
  {
    if n > 0 then Ok else if n == Again then Ok else Error
  }

  /** The status with a count of 0 counted as success, as the write-path
      callers expect: an error means the write itself failed. */
  function SendStatus(n: int): (r: int)
    ensures r == Ok || r == Error
  {
    if n >= 0 || n == Again then Ok else Error
  }

  /** The two agree except on a count of 0. */
  lemma SendStatusDiffers(n: int)
    ensures SendStatusAsWritten(n) != SendStatus(n) <==> n == 0
    ensures SendStatusAsWritten(0) == Error && SendStatus(0) == Ok
    ensures SendStatus(n) == Error <==> n < 0 && n != Again
  {
  }

  /** What sendChain leaves: the count sendv returned (0 when nothing was
      written), the status, the world, and the messages handed to
      sendDone. */
  datatype Sent = Sent(n: int, status: int, w: World, done: seq<MsgRef>)

  /** sendChain(msg) as written (lines 232-366). `ms` is msg followed by
      what sendNext would hand out; `outs` are the outcomes of the write.
      The gather walks the first message's segments for every message
      (GatherAsWritten), smsg is cleared, the vectored write runs only if
      something was gathered and keeps send_ready when the bytes written
      reach the iovec count (SendvAsWritten), the written count is walked
      back over each message's own segments, and a count of 0 is an error
      (SendStatusAsWritten). None means the outcomes ran out. */
  function SendChainAsWritten(w: World, c: ConnRef, ms: seq<MsgRef>, outs: seq<Io>): (r: Option<Sent>)
    requires c in w.conns && ms != [] && Sendable(w.mbufs, w.msgs, ms)
    ensures r.Some? ==> r.value.w == w.(mbufs := r.value.w.mbufs, conns := r.value.w.conns)
    ensures r.Some? ==> r.value.w.conns.Keys == w.conns.Keys && r.value.w.conns[c].smsg.None?
    ensures r.Some? ==> forall x :: x in w.conns && x != c ==> r.value.w.conns[x] == w.conns[x]
    ensures r.Some? ==> KeepsValid(w.mbufs, r.value.w.mbufs)
    ensures r.Some? ==> r.value.n <= GatherAsWritten(w.mbufs, w.msgs, ms).nsend
    ensures r.Some? ==> (r.value.status == Ok <==> r.value.n > 0 || r.value.n == Again)
    ensures r.Some? && r.value.n <= 0 ==> r.value.w.mbufs == w.mbufs
  {
    var g := GatherAsWritten(w.mbufs, w.msgs, ms);
    SendableSlice(w.mbufs, w.msgs, ms, 0, |g.msgq|);
    var cn := w.conns[c];
    var sent := if g.msgq != [] && g.nsend != 0 then SendvAsWritten(cn.io, |g.iovs|, g.nsend, outs)
                else Some((0, cn.io));
    if sent.None? then None
    else
      var (n, io) := sent.value;
      var (bs, done) := Account(w.mbufs, w.msgs, g.msgq, if n > 0 then n else 0);
      Some(Sent(n, SendStatusAsWritten(n), w.(mbufs := bs, conns := w.conns[c := cn.(io := io, smsg := None)]), done))
  }

  /** A message with no bytes to write: as written sendChain reports an
      error although nothing failed; the intended chain reports success.
      Both write nothing and leave the segments as they were. */
  lemma SendChainEmptyDiffers(w: World, c: ConnRef, m: MsgRef, outs: seq<Io>)
    requires c in w.conns && m in w.msgs && Live(w.mbufs, w.msgs[m].mbufs)
    requires Total(w.mbufs, w.msgs[m].mbufs) == 0
    ensures Sendable(w.mbufs, w.msgs, [m])
    ensures var a := SendChainAsWritten(w, c, [m], outs);
      a.Some? && a.value.n == 0 && a.value.status == Error && a.value.w.mbufs == w.mbufs
    ensures var b := SendChain(w, c, [m], outs);
      b.Some? && b.value.n == 0 && b.value.status == Ok && b.value.w.mbufs == w.mbufs
  {
    var segs := w.msgs[m].mbufs;
    assert Sendable(w.mbufs, w.msgs, [m]);
    GatherSegsNothing(w.mbufs, segs, 0, [], false);
    GatherSegsNothing(w.mbufs, segs, 0, [], true);
    assert GatherAsWritten(w.mbufs, w.msgs, [m]).nsend == 0;
    assert Gather(w.mbufs, w.msgs, [m]).nsend == 0;
  }

  /** The intended sendChain: each message's own segments, at most IovMax
      iovecs, send_ready kept only by a complete write, and a count of 0
      a success. */
  function SendChain(w: World, c: ConnRef, ms: seq<MsgRef>, outs: seq<Io>): (r: Option<Sent>)
    requires c in w.conns && ms != [] && Sendable(w.mbufs, w.msgs, ms)
    ensures r.Some? ==> r.value.w == w.(mbufs := r.value.w.mbufs, conns := r.value.w.conns)
    ensures r.Some? ==> r.value.w.conns.Keys == w.conns.Keys && r.value.w.conns[c].smsg.None?
    ensures r.Some? ==> forall x :: x in w.conns && x != c ==> r.value.w.conns[x] == w.conns[x]
    ensures r.Some? ==> KeepsValid(w.mbufs, r.value.w.mbufs)
    ensures r.Some? ==> r.value.n <= Gather(w.mbufs, w.msgs, ms).nsend
    ensures r.Some? ==> (r.value.status == Ok <==> r.value.n >= 0 || r.value.n == Again)
    ensures r.Some? && r.value.n <= 0 ==> r.value.w.mbufs == w.mbufs
  {
    var g := Gather(w.mbufs, w.msgs, ms);
    var cn := w.conns[c];
    var sent := if g.msgq != [] && g.nsend != 0 then Sendv(cn.io, g.nsend, outs) else Some((0, cn.io));
    if sent.None? then None
    else
      var (n, io) := sent.value;
      var (bs, done) := Account(w.mbufs, w.msgs, g.msgq, if n > 0 then n else 0);
      Some(Sent(n, SendStatus(n), w.(mbufs := bs, conns := w.conns[c := cn.(io := io, smsg := None)]), done))
  }

  lemma {:induction false} AllSegsSplit(msgs: map<MsgRef, Msg>, ms: seq<MsgRef>, k: nat)
    requires k <= |ms| && forall i :: 0 <= i < |ms| ==> ms[i] in msgs
    ensures AllSegs(msgs, ms) == AllSegs(msgs, ms[..k]) + AllSegs(msgs, ms[k..])
    decreases k
  {
    if k > 0 {
      AllSegsSplit(msgs, ms[1..], k - 1);
      assert ms[1..][..k - 1] == ms[..k][1..];
      assert ms[1..][k - 1..] == ms[k..];
    } else {
      assert ms[..k] == [];
    }
  }

  /** A send over messages that share no segment: the bytes left queued
      are exactly the gathered stream without the first n written, and
      the messages handed to sendDone are those the byte counts say are
      done. */
  lemma SendChainAccounts(w: World, c: ConnRef, ms: seq<MsgRef>, outs: seq<Io>)
    requires c in w.conns && ms != [] && Sendable(w.mbufs, w.msgs, ms)
    requires Distinct(AllSegs(w.msgs, ms))
    ensures var r := SendChain(w, c, ms, outs);
      var g := Gather(w.mbufs, w.msgs, ms);
      var k := if r.Some? && r.value.n > 0 then r.value.n else 0;
      r.Some? ==>
        Sendable(r.value.w.mbufs, w.msgs, g.msgq) &&
        k <= AllTotal(w.mbufs, w.msgs, g.msgq) &&
        |Flat(w.mbufs, w.msgs, g.msgq)| == AllTotal(w.mbufs, w.msgs, g.msgq) &&
        Flat(r.value.w.mbufs, w.msgs, g.msgq) == Flat(w.mbufs, w.msgs, g.msgq)[k..] &&
        r.value.done == Expected(w.mbufs, w.msgs, g.msgq, k)
  {
    var r := SendChain(w, c, ms, outs);
    var g := Gather(w.mbufs, w.msgs, ms);
    if r.Some? {
      var k := if r.value.n > 0 then r.value.n else 0;
      AllSegsSplit(w.msgs, ms, |g.msgq|);
      DistinctSplit(AllSegs(w.msgs, g.msgq), AllSegs(w.msgs, ms[|g.msgq|..]));
      assert r.value.w.mbufs == Account(w.mbufs, w.msgs, g.msgq, k).0;
      assert r.value.done == Account(w.mbufs, w.msgs, g.msgq, k).1;
      AccountStream(w.mbufs, w.msgs, g.msgq, k);
      AccountDone(w.mbufs, w.msgs, g.msgq, k);
    }
  }
}
