// NcMsg (nc_message.cpp): filling a message's segments, the parser's
// result dispatch, splitting off the unparsed tail, and the request-side
// filter, forward and local reply.

module Message {
  import opened Common
  import opened Queue
  import opened ObjectPool
  import opened Mbuf
  import opened Event
  import opened Pools
  import opened Store
  import Epoll
  import Servers

  // ------------------------------------------------------------ contents

  /** The segments of `m` and the segment pool name live segments of the
      current chunk size: what the segment operations of a message need. */
  ghost predicate SegsOk(w: World, m: MsgRef) {
    m in w.msgs && SegmentsOk(w) && SegsIn(w, w.msgs[m].mbufs) && SegsIn(w, w.mbufPool.free)
  }

  lemma WfSegsOk(w: World, m: MsgRef)
    requires Wf(w) && m in w.msgs
    ensures SegsOk(w, m)
  {
    assert MsgOk(w, w.msgs[m]);
  }

  /** Every entry of `segs` names a well-formed segment of `bs`. */
  ghost predicate Live(bs: map<MbufRef, Mbuf>, segs: seq<MbufRef>) {
    forall i :: 0 <= i < |segs| ==> segs[i] in bs && bs[segs[i]].Valid()
  }

  lemma SegsOkLive(w: World, m: MsgRef)
    requires SegsOk(w, m)
    ensures Live(w.mbufs, w.msgs[m].mbufs)
  {
    var segs := w.msgs[m].mbufs;
    forall i | 0 <= i < |segs|
      ensures segs[i] in w.mbufs && w.mbufs[segs[i]].Valid()
    {
      assert segs[i] in w.mbufs;
    }
  }

  /** The readable bytes of a segment queue, in queue order. */
  function Contents(bs: map<MbufRef, Mbuf>, segs: seq<MbufRef>): (r: seq<byte>)
    requires Live(bs, segs)
    decreases |segs|
  {
    if segs == [] then []
    else Contents(bs, segs[..|segs| - 1]) + Content(bs[segs[|segs| - 1]])
  }

  /** The sum of the segments' lengths. */
  function Total(bs: map<MbufRef, Mbuf>, segs: seq<MbufRef>): (r: nat)
    requires Live(bs, segs)
    decreases |segs|
  {
    if segs == [] then 0
    else Total(bs, segs[..|segs| - 1]) + Length(bs[segs[|segs| - 1]])
  }

  /** The content of a queue is as long as the sum of its lengths. */
  lemma {:induction false} ContentsLength(bs: map<MbufRef, Mbuf>, segs: seq<MbufRef>)
    requires Live(bs, segs)
    ensures |Contents(bs, segs)| == Total(bs, segs)
    decreases |segs|
  {
    if segs != [] {
      ContentsLength(bs, segs[..|segs| - 1]);
    }
  }

  /** Two segment maps that agree on the segments of a queue give it the
      same content. */
  lemma {:induction false} ContentsFrame(bs: map<MbufRef, Mbuf>, bs': map<MbufRef, Mbuf>, segs: seq<MbufRef>)
    requires Live(bs, segs)
    requires forall i :: 0 <= i < |segs| ==> segs[i] in bs' && bs'[segs[i]] == bs[segs[i]]
    ensures Live(bs', segs)
    ensures Contents(bs', segs) == Contents(bs, segs)
    ensures Total(bs', segs) == Total(bs, segs)
    decreases |segs|
  {
    if segs != [] {
      ContentsFrame(bs, bs', segs[..|segs| - 1]);
    }
  }

  /** No segment appears twice in the queue. */
  ghost predicate Distinct(segs: seq<MbufRef>) {
    forall i, j :: 0 <= i < j < |segs| ==> segs[i] != segs[j]
  }

  lemma DistinctPush(segs: seq<MbufRef>, b: MbufRef)
    requires Distinct(segs) && b !in segs
    ensures Distinct(segs + [b])
  {
    var q := segs + [b];
    forall i, j | 0 <= i < j < |q|
      ensures q[i] != q[j]
    {
      if j == |segs| {
        assert q[i] == segs[i] && segs[i] in segs;
      }
    }
  }

  /** The last segment of a queue, NULL for an empty one. */
  function Back(q: seq<MbufRef>): (r: Option<MbufRef>)
    ensures q == [] <==> r.None?
    ensures q != [] ==> r == Some(q[|q| - 1])
  {
    if q == [] then None else Some(q[|q| - 1])
  }

  /** Replacing the last segment of a queue, when it appears only there,
      replaces the tail of the content. */
  lemma ContentsReplaceBack(bs: map<MbufRef, Mbuf>, segs: seq<MbufRef>, x: Mbuf)
    requires Live(bs, segs) && segs != [] && segs[|segs| - 1] !in segs[..|segs| - 1] && x.Valid()
    ensures Live(bs[segs[|segs| - 1] := x], segs)
    ensures Contents(bs[segs[|segs| - 1] := x], segs) == Contents(bs, segs[..|segs| - 1]) + Content(x)
    ensures Total(bs[segs[|segs| - 1] := x], segs) == Total(bs, segs[..|segs| - 1]) + Length(x)
  {
    var b := segs[|segs| - 1];
    var init := segs[..|segs| - 1];
    var bs' := bs[b := x];
    forall i | 0 <= i < |init|
      ensures init[i] in bs' && bs'[init[i]] == bs[init[i]]
    {
      assert init[i] in init;
    }
    ContentsFrame(bs, bs', init);
  }

  /** Copying bytes into the last segment of a queue, when it appears
      only there, appends them to the content. */
  lemma CopyIntoBack(bs: map<MbufRef, Mbuf>, segs: seq<MbufRef>, src: seq<byte>)
    requires Live(bs, segs) && segs != [] && segs[|segs| - 1] !in segs[..|segs| - 1]
    requires |src| <= Size(bs[segs[|segs| - 1]])
    ensures var b := segs[|segs| - 1];
      Live(bs[b := Copy(bs[b], src, |src|)], segs) &&
      Contents(bs[b := Copy(bs[b], src, |src|)], segs) == Contents(bs, segs) + src &&
      Total(bs[b := Copy(bs[b], src, |src|)], segs) == Total(bs, segs) + |src|
  {
    var b := segs[|segs| - 1];
    assert src[..|src|] == src;
    ContentsReplaceBack(bs, segs, Copy(bs[b], src, |src|));
  }

  /** Copying bytes into an empty segment outside a queue and pushing it
      appends exactly those bytes to the content. */
  lemma CopyIntoPushed(bs: map<MbufRef, Mbuf>, segs: seq<MbufRef>, b: MbufRef, src: seq<byte>)
    requires Live(bs, segs) && b in bs && bs[b].Valid() && IsEmpty(bs[b]) && b !in segs
    requires |src| <= Size(bs[b])
    ensures Live(bs[b := Copy(bs[b], src, |src|)], segs + [b])
    ensures Contents(bs[b := Copy(bs[b], src, |src|)], segs + [b]) == Contents(bs, segs) + src
    ensures Total(bs[b := Copy(bs[b], src, |src|)], segs + [b]) == Total(bs, segs) + |src|
  {
    var segs' := segs + [b];
    assert segs'[..|segs'| - 1] == segs;
    assert Live(bs, segs');
    assert src[..|src|] == src;
    ContentsReplaceBack(bs, segs', Copy(bs[b], src, |src|));
  }

  // --------------------------------------------------- ensureMbuf, append

  /** ensureMbuf(len) as written: the FRONT segment is looked at, a new
      segment is taken from the pool when there is no segment or when the
      front segment already HAS room for `len` bytes, and whatever segment
      results is pushed onto the queue, even the front segment that is
      already in it. */
  function EnsureMbufAsWritten(w: World, m: MsgRef, len: nat, made: Option<MbufRef>, junk: seq<byte>)
    : (r: (World, Option<MbufRef>))
    requires SegsOk(w, m)
    requires made.Some? ==> made.value !in w.mbufs
    requires |junk| == w.chunkSize - MbufHeaderSize
    ensures SegsOk(r.0, m) && (r.1.Some? ==> r.1.value in r.0.mbufs)
    ensures var segs := w.msgs[m].mbufs;
      segs != [] && Size(w.mbufs[segs[0]]) < len ==>
        r == (WithMsg(w, m, w.msgs[m].(mbufs := segs + [segs[0]])), Some(segs[0]))
    ensures var segs := w.msgs[m].mbufs;
      segs == [] || Size(w.mbufs[segs[0]]) >= len ==>
        r.1 == AllocMbuf(w, made, junk).1 &&
        r.0.msgs[m] == (if r.1.Some? then w.msgs[m].(mbufs := segs + [r.1.value]) else w.msgs[m])
  {
    var segs := w.msgs[m].mbufs;
    var front := Front(segs);
    if front.Some? && Size(w.mbufs[front.value]) < len then
      (WithMsg(w, m, w.msgs[m].(mbufs := Push(segs, front.value))), front)
    else
      var (w1, buf) := AllocMbuf(w, made, junk);
      assert SegsIn(w1, segs) && SegsIn(w1, w1.mbufPool.free) by {
        assert forall i :: 0 <= i < |w.mbufPool.free| ==> w.mbufPool.free[i] in w.mbufs;
      }
      if buf.Some? then
        assert buf.value in w1.mbufs;
        (WithMsg(w1, m, w1.msgs[m].(mbufs := Push(segs, buf.value))), buf)
      else (w1, None)
  }

  /** The segment ensureMbuf was evidently meant to return: the LAST
      segment when it has room for `len` bytes, otherwise a new segment
      from the pool, pushed at the end of the queue. */
  function EnsureMbuf(w: World, m: MsgRef, len: nat, made: Option<MbufRef>, junk: seq<byte>)
    : (r: (World, Option<MbufRef>))
    requires SegsOk(w, m)
    requires made.Some? ==> made.value !in w.mbufs
    requires |junk| == w.chunkSize - MbufHeaderSize
    ensures SegsOk(r.0, m) && r.0.msgs.Keys == w.msgs.Keys
    ensures r.0 == w.(msgs := r.0.msgs, mbufs := r.0.mbufs, mbufPool := r.0.mbufPool)
    ensures forall x :: x in w.msgs && x != m ==> r.0.msgs[x] == w.msgs[x]
    ensures forall b :: b in w.mbufs ==> b in r.0.mbufs && r.0.mbufs[b] == w.mbufs[b]
    ensures r.1.Some? ==> r.1.value in r.0.mbufs
    ensures var segs := w.msgs[m].mbufs;
      (segs != [] && Size(w.mbufs[segs[|segs| - 1]]) >= len ==>
         r == (w, Some(segs[|segs| - 1]))) &&
      (segs == [] || Size(w.mbufs[segs[|segs| - 1]]) < len ==>
         r.1 == AllocMbuf(w, made, junk).1 && r.0.mbufPool == AllocMbuf(w, made, junk).0.mbufPool &&
         r.0.msgs[m] == (if r.1.Some? then w.msgs[m].(mbufs := segs + [r.1.value]) else w.msgs[m]))
  {
    var segs := w.msgs[m].mbufs;
    if segs != [] && Size(w.mbufs[segs[|segs| - 1]]) >= len then (w, Some(segs[|segs| - 1]))
    else
      var (w1, buf) := AllocMbuf(w, made, junk);
      assert SegsIn(w1, segs) && SegsIn(w1, w1.mbufPool.free) by {
        assert forall i :: 0 <= i < |w.mbufPool.free| ==> w.mbufPool.free[i] in w.mbufs;
      }
      if buf.Some? then
        assert buf.value in w1.mbufs;
        (WithMsg(w1, m, w1.msgs[m].(mbufs := Push(segs, buf.value))), buf)
      else (w1, None)
  }

  /** What appending asked of a segment with too little room: the source
      copies past the end of the chunk, which the model does not follow. */
  datatype Appended = Appended(status: int, w: World) | Overrun

  /** append(pos, n) on the evidently intended ensureMbuf: the bytes go
      at the write cursor of the chosen segment and the length grows by
      `n` in 32-bit arithmetic. */
  function Append(w: World, m: MsgRef, src: seq<byte>, made: Option<MbufRef>, junk: seq<byte>): (r: Appended)
    requires SegsOk(w, m)
    requires made.Some? ==> made.value !in w.mbufs
    requires |junk| == w.chunkSize - MbufHeaderSize
    ensures r.Appended? && r.status == Ok ==>
              SegsOk(r.w, m) && r.w.msgs[m].mlen == U32(w.msgs[m].mlen + |src|)
  {
    var e := EnsureMbuf(w, m, |src|, made, junk);
    if e.1.None? then Appended(NoMem, e.0)
    else if Size(e.0.mbufs[e.1.value]) < |src| then Overrun
    else
      WrittenAfterRoom(w, m, src, made, junk);
      Appended(Ok, WriteSeg(e.0, m, e.1.value, src))
  }

  /** Writing into the segment ensureMbuf found keeps the message well
      formed and grows its 32-bit length by the bytes written. */
  lemma WrittenAfterRoom(w: World, m: MsgRef, src: seq<byte>, made: Option<MbufRef>, junk: seq<byte>)
    requires SegsOk(w, m)
    requires made.Some? ==> made.value !in w.mbufs
    requires |junk| == w.chunkSize - MbufHeaderSize
    requires var e := EnsureMbuf(w, m, |src|, made, junk);
      e.1.Some? && Size(e.0.mbufs[e.1.value]) >= |src|
    ensures var e := EnsureMbuf(w, m, |src|, made, junk);
      var r := WriteSeg(e.0, m, e.1.value, src);
      SegsOk(r, m) && r.msgs[m].mlen == U32(w.msgs[m].mlen + |src|)
  {
    var e := EnsureMbuf(w, m, |src|, made, junk);
    assert e.0.msgs[m].mlen == w.msgs[m].mlen;
  }

  /** The copy step of append: `src` goes at the write cursor of segment
      `b` and the message's length grows by its size in 32-bit arithmetic;
      no other segment and no other message changes. */
  function WriteSeg(w: World, m: MsgRef, b: MbufRef, src: seq<byte>): (r: World)
    requires SegsOk(w, m) && b in w.mbufs && Size(w.mbufs[b]) >= |src|
    ensures SegsOk(r, m) && r.msgs[m].mlen == U32(w.msgs[m].mlen + |src|)
    ensures r.mbufs == w.mbufs[b := Copy(w.mbufs[b], src, |src|)]
    ensures r.msgs == w.msgs[m := w.msgs[m].(mlen := r.msgs[m].mlen)]
    ensures r == w.(msgs := r.msgs, mbufs := r.mbufs)
  {
    var w2 := w.(mbufs := w.mbufs[b := Copy(w.mbufs[b], src, |src|)]);
    assert SegsIn(w2, w2.msgs[m].mbufs) by {
      assert forall i :: 0 <= i < |w.msgs[m].mbufs| ==> w.msgs[m].mbufs[i] in w.mbufs;
    }
    assert SegsIn(w2, w2.mbufPool.free) by {
      assert forall i :: 0 <= i < |w.mbufPool.free| ==> w.mbufPool.free[i] in w.mbufs;
    }
    WithMsg(w2, m, w2.msgs[m].(mlen := U32(w2.msgs[m].mlen + |src|)))
  }

  /** append as written, on ensureMbuf as written. */
  function AppendAsWritten(w: World, m: MsgRef, src: seq<byte>, made: Option<MbufRef>, junk: seq<byte>)
    : (r: Appended)
    requires SegsOk(w, m)
    requires made.Some? ==> made.value !in w.mbufs
    requires |junk| == w.chunkSize - MbufHeaderSize
    ensures var segs := w.msgs[m].mbufs;
      segs != [] && Size(w.mbufs[segs[0]]) < |src| ==> r.Overrun?
  {
    var (w1, buf) := EnsureMbufAsWritten(w, m, |src|, made, junk);
    if buf.None? then Appended(NoMem, w1)
    else if Size(w1.mbufs[buf.value]) < |src| then Overrun
    else
      var b := w1.mbufs[buf.value];
      var w2 := w1.(mbufs := w1.mbufs[buf.value := Copy(b, src, |src|)]);
      Appended(Ok, WithMsg(w2, m, w2.msgs[m].(mlen := U32(w2.msgs[m].mlen + |src|))))
  }

  /** The pooled segments are empty and none of them is one of `m`'s:
      what appending to `m` needs so that a recycled segment brings no
      stale bytes along. */
  ghost predicate CleanPool(w: World, m: MsgRef)
    requires m in w.msgs
  {
    forall i :: 0 <= i < |w.mbufPool.free| ==>
      w.mbufPool.free[i] in w.mbufs && IsEmpty(w.mbufs[w.mbufPool.free[i]]) &&
      w.mbufPool.free[i] !in w.msgs[m].mbufs
  }

  /** The last segment of `m`, if any, appears only once. */
  ghost predicate BackOnce(w: World, m: MsgRef)
    requires m in w.msgs
  {
    var segs := w.msgs[m].mbufs;
    segs != [] ==> segs[|segs| - 1] !in segs[..|segs| - 1]
  }

  /** A segment taken from the pool by AllocMbuf is a new, empty one
      outside the message when the pool is clean. */
  lemma AllocMbufClean(w: World, m: MsgRef, made: Option<MbufRef>, junk: seq<byte>)
    requires SegsOk(w, m) && CleanPool(w, m)
    requires made.Some? ==> made.value !in w.mbufs
    requires |junk| == w.chunkSize - MbufHeaderSize
    ensures var (w1, o) := AllocMbuf(w, made, junk);
      o.Some? ==> o.value in w1.mbufs && w1.mbufs[o.value].Valid() && IsEmpty(w1.mbufs[o.value]) &&
                  o.value !in w.msgs[m].mbufs
  {
    var (w1, o) := AllocMbuf(w, made, junk);
    if o.Some? && w.mbufPool.free != [] {
      assert w.mbufPool.free[0] in w.mbufs;
    }
  }

  /** Appending through the intended ensureMbuf adds exactly the given
      bytes after the message's content, and the segment lengths grow by
      their number. */
  lemma AppendAddsContent(w: World, m: MsgRef, src: seq<byte>, made: Option<MbufRef>, junk: seq<byte>)
    requires SegsOk(w, m) && CleanPool(w, m) && BackOnce(w, m)
    requires made.Some? ==> made.value !in w.mbufs
    requires |junk| == w.chunkSize - MbufHeaderSize
    ensures Live(w.mbufs, w.msgs[m].mbufs)
    ensures var r := Append(w, m, src, made, junk);
      r.Appended? && r.status == Ok ==>
        Live(r.w.mbufs, r.w.msgs[m].mbufs) &&
        Contents(r.w.mbufs, r.w.msgs[m].mbufs) == Contents(w.mbufs, w.msgs[m].mbufs) + src &&
        Total(r.w.mbufs, r.w.msgs[m].mbufs) == Total(w.mbufs, w.msgs[m].mbufs) + |src|
  {
    SegsOkLive(w, m);
    var segs := w.msgs[m].mbufs;
    if segs != [] && Size(w.mbufs[segs[|segs| - 1]]) >= |src| {
      AppendIntoBack(w, m, src, made, junk);
    } else {
      AppendIntoNew(w, m, src, made, junk);
    }
  }

  /** AppendAddsContent when the back segment has room. */
  lemma AppendIntoBack(w: World, m: MsgRef, src: seq<byte>, made: Option<MbufRef>, junk: seq<byte>)
    requires SegsOk(w, m) && BackOnce(w, m)
    requires made.Some? ==> made.value !in w.mbufs
    requires |junk| == w.chunkSize - MbufHeaderSize
    requires w.msgs[m].mbufs != [] && Size(w.mbufs[w.msgs[m].mbufs[|w.msgs[m].mbufs| - 1]]) >= |src|
    ensures var r := Append(w, m, src, made, junk);
      r.Appended? && r.status == Ok ==>
        Contents(r.w.mbufs, r.w.msgs[m].mbufs) == Contents(w.mbufs, w.msgs[m].mbufs) + src &&
        Total(r.w.mbufs, r.w.msgs[m].mbufs) == Total(w.mbufs, w.msgs[m].mbufs) + |src|
  {
    SegsOkLive(w, m);
    var r := Append(w, m, src, made, junk);
    var (w1, buf) := EnsureMbuf(w, m, |src|, made, junk);
    if r.Appended? && r.status == Ok {
      assert r.w.mbufs == w1.mbufs[buf.value := Copy(w1.mbufs[buf.value], src, |src|)];
      CopyIntoBack(w.mbufs, w.msgs[m].mbufs, src);
    }
  }

  /** AppendAddsContent when a fresh segment is pushed. */
  lemma AppendIntoNew(w: World, m: MsgRef, src: seq<byte>, made: Option<MbufRef>, junk: seq<byte>)
    requires SegsOk(w, m) && CleanPool(w, m)
    requires made.Some? ==> made.value !in w.mbufs
    requires |junk| == w.chunkSize - MbufHeaderSize
    requires !(w.msgs[m].mbufs != [] && Size(w.mbufs[w.msgs[m].mbufs[|w.msgs[m].mbufs| - 1]]) >= |src|)
    ensures var r := Append(w, m, src, made, junk);
      r.Appended? && r.status == Ok ==>
        Live(r.w.mbufs, r.w.msgs[m].mbufs) &&
        Contents(r.w.mbufs, r.w.msgs[m].mbufs) == Contents(w.mbufs, w.msgs[m].mbufs) + src &&
        Total(r.w.mbufs, r.w.msgs[m].mbufs) == Total(w.mbufs, w.msgs[m].mbufs) + |src|
  {
    SegsOkLive(w, m);
    var r := Append(w, m, src, made, junk);
    var segs := w.msgs[m].mbufs;
    var (w1, buf) := EnsureMbuf(w, m, |src|, made, junk);
    if r.Appended? && r.status == Ok {
      var b := buf.value;
      assert r.w.mbufs == w1.mbufs[b := Copy(w1.mbufs[b], src, |src|)];
      AllocMbufClean(w, m, made, junk);
      assert r.w.msgs[m].mbufs == segs + [b];
      ContentsFrame(w.mbufs, w1.mbufs, segs);
      CopyIntoPushed(w1.mbufs, segs, b, src);
    }
  }

  /** The front-segment case of ensureMbuf as written: a message whose
      only segment is full, asked for one byte, gets that same segment
      pushed a second time, and append then has no room to copy into. */
  lemma EnsureMbufAsWrittenDuplicates(w: World, m: MsgRef, b: MbufRef, x: byte,
                                      made: Option<MbufRef>, junk: seq<byte>)
    requires SegsOk(w, m) && w.msgs[m].mbufs == [b] && b in w.mbufs && IsFull(w.mbufs[b])
    requires made.Some? ==> made.value !in w.mbufs
    requires |junk| == w.chunkSize - MbufHeaderSize
    ensures EnsureMbufAsWritten(w, m, 1, made, junk).0.msgs[m].mbufs == [b, b]
    ensures AppendAsWritten(w, m, [x], made, junk).Overrun?
    ensures !Distinct(EnsureMbufAsWritten(w, m, 1, made, junk).0.msgs[m].mbufs)
  {
    var q := EnsureMbufAsWritten(w, m, 1, made, junk).0.msgs[m].mbufs;
    assert q[0] == q[1];
  }

  /** The intended ensureMbuf never puts a segment into the queue twice. */
  lemma EnsureMbufKeepsDistinct(w: World, m: MsgRef, len: nat, made: Option<MbufRef>, junk: seq<byte>)
    requires SegsOk(w, m) && CleanPool(w, m) && Distinct(w.msgs[m].mbufs)
    requires made.Some? ==> made.value !in w.mbufs
    requires |junk| == w.chunkSize - MbufHeaderSize
    ensures Distinct(EnsureMbuf(w, m, len, made, junk).0.msgs[m].mbufs)
  {
    var segs := w.msgs[m].mbufs;
    var r := EnsureMbuf(w, m, len, made, junk);
    if segs != [] && Size(w.mbufs[segs[|segs| - 1]]) >= len {
      assert r.0 == w;
    } else {
      EnsureMbufPushesNew(w, m, len, made, junk);
    }
  }

  /** When ensureMbuf takes a segment from a clean pool, the queue grows
      by a segment it did not hold. */
  lemma EnsureMbufPushesNew(w: World, m: MsgRef, len: nat, made: Option<MbufRef>, junk: seq<byte>)
    requires SegsOk(w, m) && CleanPool(w, m) && Distinct(w.msgs[m].mbufs)
    requires made.Some? ==> made.value !in w.mbufs
    requires |junk| == w.chunkSize - MbufHeaderSize
    requires var segs := w.msgs[m].mbufs; segs == [] || Size(w.mbufs[segs[|segs| - 1]]) < len
    ensures Distinct(EnsureMbuf(w, m, len, made, junk).0.msgs[m].mbufs)
  {
    var segs := w.msgs[m].mbufs;
    var r := EnsureMbuf(w, m, len, made, junk);
    var a := AllocMbuf(w, made, junk);
    AllocMbufClean(w, m, made, junk);
    assert r.1 == a.1;
    if r.1.Some? {
      assert r.1.value !in segs;
      assert r.0.msgs[m].mbufs == segs + [r.1.value];
      DistinctPush(segs, r.1.value);
    } else {
      assert r.0.msgs[m].mbufs == segs;
    }
  }

  /** The intended ensureMbuf hands back a segment already in the queue
      only when it has room for `len` bytes. */
  lemma EnsureMbufHasRoom(w: World, m: MsgRef, len: nat, made: Option<MbufRef>, junk: seq<byte>)
    requires SegsOk(w, m) && CleanPool(w, m)
    requires made.Some? ==> made.value !in w.mbufs
    requires |junk| == w.chunkSize - MbufHeaderSize
    ensures var r := EnsureMbuf(w, m, len, made, junk);
      r.1.Some? && r.1.value in w.msgs[m].mbufs ==>
        r.1.value in w.mbufs && Size(w.mbufs[r.1.value]) >= len
  {
    var segs := w.msgs[m].mbufs;
    if !(segs != [] && Size(w.mbufs[segs[|segs| - 1]]) >= len) {
      AllocMbufClean(w, m, made, junk);
    }
  }

  /** preAppend(pos, n): a segment is taken from the pool, the bytes are
      copied into it, it is pushed at the END of the queue (despite the
      name) and the length grows by `n` in 32-bit arithmetic. */
  function PreAppend(w: World, m: MsgRef, src: seq<byte>, made: Option<MbufRef>, junk: seq<byte>): (r: Appended)
    requires SegsOk(w, m)
    requires made.Some? ==> made.value !in w.mbufs
    requires |junk| == w.chunkSize - MbufHeaderSize
    ensures AllocMbuf(w, made, junk).1.None? ==> r == Appended(NoMem, AllocMbuf(w, made, junk).0)
    ensures r.Appended? && r.status == Ok ==>
              SegsOk(r.w, m) && r.w.msgs[m].mlen == U32(w.msgs[m].mlen + |src|) &&
              r.w.msgs[m].mbufs == w.msgs[m].mbufs + [AllocMbuf(w, made, junk).1.value]
  {
    var (w1, buf) := AllocMbuf(w, made, junk);
    if buf.None? then Appended(NoMem, w1)
    else
      AllocMbufPushed(w, m, made, junk);
      var w2 := WithMsg(w1, m, w1.msgs[m].(mbufs := Push(w.msgs[m].mbufs, buf.value)));
      if Size(w2.mbufs[buf.value]) < |src| then Overrun
      else Appended(Ok, WriteSeg(w2, m, buf.value, src))
  }

  /** A segment handed out by the pool can be pushed on the message's
      queue: the segment exists and the queue still names live segments. */
  lemma AllocMbufPushed(w: World, m: MsgRef, made: Option<MbufRef>, junk: seq<byte>)
    requires SegsOk(w, m)
    requires made.Some? ==> made.value !in w.mbufs
    requires |junk| == w.chunkSize - MbufHeaderSize
    ensures var (w1, buf) := AllocMbuf(w, made, junk);
      buf.Some? ==>
        buf.value in w1.mbufs && SegsOk(WithMsg(w1, m, w1.msgs[m].(mbufs := Push(w.msgs[m].mbufs, buf.value))), m)
  {
    var (w1, buf) := AllocMbuf(w, made, junk);
    assert SegsIn(w1, w1.mbufPool.free) by {
      assert forall i :: 0 <= i < |w.mbufPool.free| ==> w.mbufPool.free[i] in w.mbufs;
    }
    if buf.Some? {
      var segs := Push(w.msgs[m].mbufs, buf.value);
      assert SegsIn(w1, segs) by {
        assert forall i :: 0 <= i < |w.msgs[m].mbufs| ==> w.msgs[m].mbufs[i] in w.mbufs;
      }
    }
  }

  /** With a clean pool, preAppend adds exactly the given bytes after the
      message's content. */
  lemma PreAppendAddsContent(w: World, m: MsgRef, src: seq<byte>, made: Option<MbufRef>, junk: seq<byte>)
    requires SegsOk(w, m) && CleanPool(w, m)
    requires made.Some? ==> made.value !in w.mbufs
    requires |junk| == w.chunkSize - MbufHeaderSize
    ensures Live(w.mbufs, w.msgs[m].mbufs)
    ensures var r := PreAppend(w, m, src, made, junk);
      r.Appended? && r.status == Ok ==>
        Live(r.w.mbufs, r.w.msgs[m].mbufs) &&
        Contents(r.w.mbufs, r.w.msgs[m].mbufs) == Contents(w.mbufs, w.msgs[m].mbufs) + src
  {
    SegsOkLive(w, m);
    var r := PreAppend(w, m, src, made, junk);
    if r.Appended? && r.status == Ok {
      AllocMbufClean(w, m, made, junk);
      var (w1, buf) := AllocMbuf(w, made, junk);
      var segs := w.msgs[m].mbufs;
      assert r.w.mbufs == w1.mbufs[buf.value := Copy(w1.mbufs[buf.value], src, |src|)];
      ContentsFrame(w.mbufs, w1.mbufs, segs);
      CopyIntoPushed(w1.mbufs, segs, buf.value, src);
    }
  }

  // ------------------------------------------------------- parse results

  /** m_result_: what the protocol parser made of the received bytes. */
  datatype ParseResult = ParseOk | ParseRepair | ParseAgain | ParseFailed(code: int)

  /** A call conn->recvDone(cmsg, rmsg) the message code makes: `cmsg` is
      handed on as complete and `rmsg` becomes the message being received.
      It is returned rather than made, because what it does depends on the
      connection's role. */
  datatype Handoff = Handoff(cmsg: MsgRef, rmsg: Option<MsgRef>)

  /** A status, the world after the step, and the recvDone call made. */
  datatype Step = Step(status: int, w: World, handoff: Option<Handoff>)

  /** What splitting asks of the allocator: the segment `new NcMbuf`
      yields (None for NULL) and the bytes its memory held, and the
      message the message pool hands out when it has none (None for
      NULL) with its contents right after `new`. */
  datatype SplitEnv = SplitEnv(nbuf: Option<MbufRef>, junk: seq<byte>, nmsg: Option<MsgRef>, blank: Msg)

  ghost predicate SplitEnvOk(w: World, env: SplitEnv) {
    (env.nbuf.Some? ==> env.nbuf.value !in w.mbufs) &&
    |env.junk| == w.chunkSize - MbufHeaderSize &&
    (env.nmsg.Some? ==> env.nmsg.value !in w.msgs) &&
    env.blank.mbufs == [] && env.blank.key == 0 && env.blank.data.None?
  }

  /** The parse position points into the last segment, between its read
      and write cursors (splitting at any other pointer is undefined). */
  ghost predicate PosInBack(w: World, m: MsgRef)
    requires m in w.msgs
  {
    var x := w.msgs[m];
    x.mbufs != [] ==>
      x.pos.Some? && x.pos.value.seg == x.mbufs[|x.mbufs| - 1] && x.pos.value.seg in w.mbufs &&
      w.mbufs[x.pos.value.seg].pos <= x.pos.value.off <= w.mbufs[x.pos.value.seg].last
  }

  /** The split of the last segment at the parse position, into the
      parsed head (kept in place) and the tail in the new segment `nb`. */
  function SplitBack(w: World, m: MsgRef, nb: MbufRef, junk: seq<byte>): (r: World)
    requires SegsOk(w, m) && PosInBack(w, m) && w.msgs[m].mbufs != []
    requires nb !in w.mbufs && |junk| == w.chunkSize - MbufHeaderSize
    ensures var back := w.msgs[m].mbufs[|w.msgs[m].mbufs| - 1];
      var p := w.msgs[m].pos.value.off;
      var sp := Split(w.mbufs[back], p, w.chunkSize, junk);
      r == w.(mbufs := w.mbufs[back := sp.0][nb := sp.1])
    ensures SegmentsOk(r)
  {
    var segs := w.msgs[m].mbufs;
    var back := segs[|segs| - 1];
    var b := w.mbufs[back];
    var sp := Split(b, w.msgs[m].pos.value.off, w.chunkSize, junk);
    w.(mbufs := w.mbufs[back := sp.0][nb := sp.1])
  }

  /** parseDone: with no segment, ENOMEM. When the parser stopped at the
      write cursor of the last segment the whole message is complete and
      is handed on, recvDone(this, NULL). Otherwise the last segment is
      split at the parse position (ENOMEM, nothing changed, when no
      segment can be made), and a new message takes the tail segment, its
      length, and the parse position at the tail's start; this message's
      length drops by the tail's (in 32-bit arithmetic). Then
      recvDone(nmsg, this) hands on the NEW message and keeps receiving
      into this one. When no message can be had the tail segment goes to
      the segment pool and ENOMEM is returned, the head left truncated. */
  function ParseDone(w: World, m: MsgRef, env: SplitEnv): (r: Step)
    requires SegsOk(w, m) && PosInBack(w, m) && SplitEnvOk(w, env) && MsgsIn(w, w.msgPool.free)
    ensures w.msgs[m].mbufs == [] ==> r == Step(NoMem, w, None)
    ensures var segs := w.msgs[m].mbufs;
      segs != [] && w.msgs[m].pos.value.off == w.mbufs[segs[|segs| - 1]].last ==>
        r == Step(Ok, w, Some(Handoff(m, None)))
    ensures var segs := w.msgs[m].mbufs;
      segs != [] && w.msgs[m].pos.value.off != w.mbufs[segs[|segs| - 1]].last && env.nbuf.None? ==>
        r == Step(NoMem, w, None)
    ensures r.status == Ok || r.status == NoMem
    ensures r.status == NoMem ==> r.handoff.None?
    ensures r.status == Ok && r.handoff != Some(Handoff(m, None)) ==>
              r.handoff.Some? && r.handoff.value.rmsg == Some(m) &&
              Alloc(w.msgPool, env.nmsg).1 == Some(r.handoff.value.cmsg)
  {
    var segs := w.msgs[m].mbufs;
    if segs == [] then Step(NoMem, w, None)
    else
      var back := segs[|segs| - 1];
      if w.msgs[m].pos.value.off == w.mbufs[back].last then Step(Ok, w, Some(Handoff(m, None)))
      else if env.nbuf.None? then Step(NoMem, w, None)
      else
        var nb := env.nbuf.value;
        var w1 := SplitBack(w, m, nb, env.junk);
        var tail := w1.mbufs[nb];
        var (w2, o) := AllocMsg(w1, env.nmsg, env.blank);
        if o.None? then Step(NoMem, w2.(mbufPool := Free(w2.mbufPool, Some(nb))), None)
        else
          var nm := o.value;
          assert nm in w2.msgs by {
            assert w.msgPool.free != [] ==> w.msgPool.free[0] in w.msgs;
          }
          var len := Length(tail);
          var x := w2.msgs[nm];
          var w3 := WithMsg(w2, nm, x.(mbufs := Push(x.mbufs, nb), pos := Some(Cursor(nb, tail.pos)), mlen := len));
          var w4 := WithMsg(w3, m, w3.msgs[m].(mlen := U32(w3.msgs[m].mlen - len)));
          Step(Ok, w4, Some(Handoff(nm, Some(m))))
  }

  /** The pooled messages hold no segments. */
  ghost predicate CleanMsgPool(w: World) {
    forall i :: 0 <= i < |w.msgPool.free| ==> w.msgPool.free[i] in w.msgs && w.msgs[w.msgPool.free[i]].mbufs == []
  }

  /** Splitting the last segment of a queue at `p` and putting the tail
      in a new segment `nb`: the queue's content and the tail's together
      are the old content. */
  lemma SplitBackMap(bs: map<MbufRef, Mbuf>, segs: seq<MbufRef>, p: nat, cs: nat, junk: seq<byte>, nb: MbufRef)
    requires Live(bs, segs) && segs != [] && segs[|segs| - 1] !in segs[..|segs| - 1]
    requires bs[segs[|segs| - 1]].pos <= p <= bs[segs[|segs| - 1]].last
    requires cs >= MbufHeaderSize && |junk| == cs - MbufHeaderSize
    requires bs[segs[|segs| - 1]].last - p <= cs - MbufHeaderSize
    requires nb !in bs
    ensures var back := segs[|segs| - 1];
      var sp := Split(bs[back], p, cs, junk);
      var bs' := bs[back := sp.0][nb := sp.1];
      Live(bs', segs) && Live(bs', [nb]) && nb !in segs && bs'[nb].pos == 0 &&
      Contents(bs', segs) + Contents(bs', [nb]) == Contents(bs, segs) &&
      Total(bs', segs) + Total(bs', [nb]) == Total(bs, segs)
  {
    var back := segs[|segs| - 1];
    var b := bs[back];
    var sp := Split(b, p, cs, junk);
    var bs1 := bs[back := sp.0];
    var bs' := bs1[nb := sp.1];
    ContentsReplaceBack(bs, segs, sp.0);
    assert nb !in bs1;
    AddFresh(bs1, segs, nb, sp.1);
    SplitConservesContent(b, p, cs, junk);
    OneSeg(bs', nb);
  }

  /** Adding a segment under a fresh reference leaves a live queue, its
      contents and its length alone. */
  lemma AddFresh(bs: map<MbufRef, Mbuf>, segs: seq<MbufRef>, nb: MbufRef, x: Mbuf)
    requires Live(bs, segs) && nb !in bs
    ensures nb !in segs
    ensures Live(bs[nb := x], segs)
    ensures Contents(bs[nb := x], segs) == Contents(bs, segs) && Total(bs[nb := x], segs) == Total(bs, segs)
  {
    var bs' := bs[nb := x];
    forall i | 0 <= i < |segs|
      ensures segs[i] in bs' && bs'[segs[i]] == bs[segs[i]] && segs[i] != nb
    {
      assert segs[i] in bs;
    }
    ContentsFrame(bs, bs', segs);
  }

  /** A queue of one segment holds exactly that segment's content. */
  lemma OneSeg(bs: map<MbufRef, Mbuf>, b: MbufRef)
    requires b in bs && bs[b].Valid()
    ensures Live(bs, [b])
    ensures Contents(bs, [b]) == Content(bs[b]) && Total(bs, [b]) == Length(bs[b])
  {
    assert [b][..0] == [];
  }

  /** SplitBack on the world, in the terms of SplitBackMap. */
  lemma SplitBackContents(w: World, m: MsgRef, nb: MbufRef, junk: seq<byte>)
    requires SegsOk(w, m) && PosInBack(w, m) && w.msgs[m].mbufs != [] && BackOnce(w, m)
    requires nb !in w.mbufs && |junk| == w.chunkSize - MbufHeaderSize
    ensures var segs := w.msgs[m].mbufs;
      var bs := SplitBack(w, m, nb, junk).mbufs;
      Live(w.mbufs, segs) && Live(bs, segs) && Live(bs, [nb]) &&
      Contents(bs, segs) + Contents(bs, [nb]) == Contents(w.mbufs, segs) &&
      Total(bs, segs) + Total(bs, [nb]) == Total(w.mbufs, segs) &&
      bs[nb].pos == 0 && nb !in segs
  {
    SegsOkLive(w, m);
    var segs := w.msgs[m].mbufs;
    var back := segs[|segs| - 1];
    assert |w.mbufs[back].data| == w.chunkSize - MbufHeaderSize;
    SplitBackMap(w.mbufs, segs, w.msgs[m].pos.value.off, w.chunkSize, junk, nb);
  }

  /** Splitting off the unparsed tail neither loses nor duplicates bytes:
      the head message keeps its segments, now ending at the parse
      position, the new message holds exactly the tail in one segment with
      its length as mlen, and (for a length that fits and covers the tail)
      the two lengths add up to the old one. */
  lemma ParseDoneConserves(w: World, m: MsgRef, env: SplitEnv)
    requires SegsOk(w, m) && PosInBack(w, m) && SplitEnvOk(w, env) && MsgsIn(w, w.msgPool.free)
    requires BackOnce(w, m) && CleanMsgPool(w) && m !in w.msgPool.free && w.msgs[m].mlen < Two32
    ensures var r := ParseDone(w, m, env);
      r.status == Ok && r.handoff.value.cmsg != m ==>
        var nm := r.handoff.value.cmsg;
        nm in r.w.msgs && r.w.msgs[m].mbufs == w.msgs[m].mbufs && |r.w.msgs[nm].mbufs| == 1 &&
        Live(w.mbufs, w.msgs[m].mbufs) &&
        Live(r.w.mbufs, r.w.msgs[m].mbufs) && Live(r.w.mbufs, r.w.msgs[nm].mbufs) &&
        Contents(r.w.mbufs, r.w.msgs[m].mbufs) + Contents(r.w.mbufs, r.w.msgs[nm].mbufs) ==
          Contents(w.mbufs, w.msgs[m].mbufs) &&
        r.w.msgs[nm].mlen == Total(r.w.mbufs, r.w.msgs[nm].mbufs) &&
        r.w.msgs[nm].pos == Some(Cursor(r.w.msgs[nm].mbufs[0], 0)) &&
        (w.msgs[m].mlen >= r.w.msgs[nm].mlen ==> r.w.msgs[m].mlen + r.w.msgs[nm].mlen == w.msgs[m].mlen)
  {
    var r := ParseDone(w, m, env);
    if r.status == Ok && r.handoff.value.cmsg != m {
      var segs := w.msgs[m].mbufs;
      var nb := env.nbuf.value;
      SplitBackContents(w, m, nb, env.junk);
      var w1 := SplitBack(w, m, nb, env.junk);
      var nm := r.handoff.value.cmsg;
      assert w.msgPool.free != [] ==> w.msgPool.free[0] in w.msgs && w.msgs[w.msgPool.free[0]].mbufs == [];
      assert r.w.mbufs == w1.mbufs;
      assert r.w.msgs[nm].mbufs == [nb];
      assert r.w.msgs[m].mbufs == segs;
      assert r.w.msgs[nm].mlen == Length(w1.mbufs[nb]);
      assert Total(w1.mbufs, [nb]) == Length(w1.mbufs[nb]) by {
        assert [nb][..0] == [];
      }
    }
  }

  /** When no message can be had for the tail, parseDone has already cut
      the last segment back to the parse position: the unparsed bytes
      leave the message and their segment goes to the segment pool. */
  lemma ParseDoneNoMsgDropsTail(w: World, m: MsgRef, env: SplitEnv)
    requires SegsOk(w, m) && PosInBack(w, m) && SplitEnvOk(w, env) && MsgsIn(w, w.msgPool.free)
    requires BackOnce(w, m) && w.msgs[m].mbufs != [] && env.nbuf.Some?
    requires w.msgs[m].pos.value.off != w.mbufs[w.msgs[m].mbufs[|w.msgs[m].mbufs| - 1]].last
    requires Alloc(w.msgPool, env.nmsg).1.None?
    ensures var r := ParseDone(w, m, env);
      var back := w.msgs[m].mbufs[|w.msgs[m].mbufs| - 1];
      r.status == NoMem && r.handoff.None? &&
      r.w.mbufPool.free == w.mbufPool.free + [env.nbuf.value] &&
      Live(w.mbufs, w.msgs[m].mbufs) && Live(r.w.mbufs, r.w.msgs[m].mbufs) &&
      Contents(r.w.mbufs, r.w.msgs[m].mbufs) + w.mbufs[back].data[w.msgs[m].pos.value.off..w.mbufs[back].last] ==
        Contents(w.mbufs, w.msgs[m].mbufs)
  {
    var nb := env.nbuf.value;
    SplitBackContents(w, m, nb, env.junk);
    var w1 := SplitBack(w, m, nb, env.junk);
    var r := ParseDone(w, m, env);
    assert r.w.mbufs == w1.mbufs && r.w.msgs == w1.msgs;
    assert Contents(w1.mbufs, [nb]) == Content(w1.mbufs[nb]) by {
      assert [nb][..0] == [];
    }
  }

  /** repairDone: with no segment, ERROR; when no segment can be made,
      ENOMEM with nothing changed. Otherwise the last segment is split at
      the parse position, the tail segment is pushed onto the SAME message
      and the parse position moves to the tail's start. The length is not
      touched and nothing is handed on. */
  function RepairDone(w: World, m: MsgRef, env: SplitEnv): (r: Step)
    requires SegsOk(w, m) && PosInBack(w, m) && SplitEnvOk(w, env)
    ensures r.handoff.None?
    ensures w.msgs[m].mbufs == [] ==> r == Step(Error, w, None)
    ensures w.msgs[m].mbufs != [] && env.nbuf.None? ==> r == Step(NoMem, w, None)
    ensures w.msgs[m].mbufs != [] && env.nbuf.Some? ==>
              r.status == Ok && r.w.msgs.Keys == w.msgs.Keys &&
              r.w.msgs[m] == w.msgs[m].(mbufs := w.msgs[m].mbufs + [env.nbuf.value],
                                        pos := Some(Cursor(env.nbuf.value, 0))) &&
              (forall x :: x in w.msgs && x != m ==> r.w.msgs[x] == w.msgs[x])
  {
    var segs := w.msgs[m].mbufs;
    if segs == [] then Step(Error, w, None)
    else if env.nbuf.None? then Step(NoMem, w, None)
    else
      var nb := env.nbuf.value;
      var w1 := SplitBack(w, m, nb, env.junk);
      Step(Ok, WithMsg(w1, m, w1.msgs[m].(mbufs := Push(segs, nb), pos := Some(Cursor(nb, 0)))), None)
  }

  /** Repairing moves bytes between segments but keeps the message's
      content and length; the parse position is the start of the new last
      segment. */
  lemma RepairDoneKeepsContent(w: World, m: MsgRef, env: SplitEnv)
    requires SegsOk(w, m) && PosInBack(w, m) && SplitEnvOk(w, env) && BackOnce(w, m)
    ensures Live(w.mbufs, w.msgs[m].mbufs)
    ensures var r := RepairDone(w, m, env);
      r.status == Ok ==>
        Live(r.w.mbufs, r.w.msgs[m].mbufs) &&
        Contents(r.w.mbufs, r.w.msgs[m].mbufs) == Contents(w.mbufs, w.msgs[m].mbufs) &&
        Total(r.w.mbufs, r.w.msgs[m].mbufs) == Total(w.mbufs, w.msgs[m].mbufs) &&
        r.w.msgs[m].mlen == w.msgs[m].mlen && r.w.mbufs[env.nbuf.value].pos == 0
  {
    SegsOkLive(w, m);
    var r := RepairDone(w, m, env);
    if r.status == Ok {
      var segs := w.msgs[m].mbufs;
      var nb := env.nbuf.value;
      SplitBackContents(w, m, nb, env.junk);
      var bs := SplitBack(w, m, nb, env.junk).mbufs;
      assert r.w.mbufs == bs;
      var segs' := segs + [nb];
      assert segs'[..|segs'| - 1] == segs;
      assert [nb][..0] == [];
      assert Live(bs, segs');
      assert Contents(bs, segs') == Contents(bs, segs) + Contents(bs, [nb]);
      assert Total(bs, segs') == Total(bs, segs) + Total(bs, [nb]);
    }
  }

  /** The result of NcMsg::parse before its last line: the step taken and
      whether the connection's error is still to be checked (the empty
      message returns before that check). */
  datatype Parsed = Parsed(step: Step, checked: bool)

  /** NcMsg::parse(conn) up to the recvDone call it makes. An empty
      message is handed on at once, recvDone(this, NULL). Otherwise the
      connection is marked at end of file and the parse result is
      dispatched: OK to parseDone, REPAIR to repairDone, AGAIN to OK with
      nothing more done, and any other result to ERROR with errno recorded
      on the connection. No parser stands behind it: nc_message.cpp:91-92
      fixes the result to OK, so the other branches are unreachable as
      written; the model takes the result as an input. */
  function Parse(w: World, c: ConnRef, m: MsgRef, result: ParseResult, errno: int, env: SplitEnv): (r: Parsed)
    requires c in w.conns
    requires SegsOk(w, m) && PosInBack(w, m) && SplitEnvOk(w, env) && MsgsIn(w, w.msgPool.free)
    ensures MsgEmpty(w.msgs[m]) ==> r == Parsed(Step(Ok, w, Some(Handoff(m, None))), false)
    ensures !MsgEmpty(w.msgs[m]) ==> r.checked
    ensures var x := w.conns[c];
      var w1 := WithConn(w, c, x.(io := x.io.(eof := true)));
      !MsgEmpty(w.msgs[m]) ==>
        (result == ParseOk ==> r.step == ParseDone(w1, m, env)) &&
        (result == ParseRepair ==> r.step == RepairDone(w1, m, env)) &&
        (result == ParseAgain ==> r.step == Step(Ok, w1, None)) &&
        (result.ParseFailed? ==>
           r.step == Step(Error, WithConn(w, c, x.(io := x.io.(eof := true, err := errno))), None))
  {
    if MsgEmpty(w.msgs[m]) then Parsed(Step(Ok, w, Some(Handoff(m, None))), false)
    else
      var x := w.conns[c];
      var w1 := WithConn(w, c, x.(io := x.io.(eof := true)));
      match result
      case ParseOk => Parsed(ParseDone(w1, m, env), true)
      case ParseRepair => Parsed(RepairDone(w1, m, env), true)
      case ParseAgain => Parsed(Step(Ok, w1, None), true)
      case ParseFailed(_) => Parsed(Step(Error, WithConn(w1, c, x.(io := x.io.(eof := true, err := errno))), None), true)
  }

  /** parse's last line, after the recvDone call has been made: ERROR
      whenever the connection has an error, the step's status otherwise. */
  function ParseStatus(p: Parsed, w: World, c: ConnRef): (r: int)
    requires c in w.conns
    ensures p.checked && w.conns[c].io.err != 0 ==> r == Error
    ensures !p.checked || w.conns[c].io.err == 0 ==> r == p.step.status
  {
    if p.checked && w.conns[c].io.err != 0 then Error else p.step.status
  }

  // ------------------------------------------------------------ requests

  /** requestFilter(conn): an empty request is freed (forced) and
      consumed; a quit request marks the connection at end of file and no
      longer ready to read, is freed and consumed; any other request is
      kept and nothing changes. */
  function RequestFilter(w: World, c: ConnRef, m: MsgRef): (r: (bool, World))
    requires c in w.conns && PeerOk(w, m)
    requires w.conns[c].owner.Some? ==> w.pool.hasCtx
    ensures r.0 <==> MsgEmpty(w.msgs[m]) || w.msgs[m].quit
    ensures !r.0 ==> r.1 == w
    ensures MsgEmpty(w.msgs[m]) ==> r.1 == FreeMsg(w, c, m, true)
    ensures !MsgEmpty(w.msgs[m]) && w.msgs[m].quit ==>
              var x := w.conns[c];
              r.1 == FreeMsg(WithConn(w, c, x.(io := x.io.(eof := true, recvReady := false))), c, m, true)
  {
    if MsgEmpty(w.msgs[m]) then (true, FreeMsg(w, c, m, true))
    else if w.msgs[m].quit then
      var x := w.conns[c];
      (true, FreeMsg(WithConn(w, c, x.(io := x.io.(eof := true, recvReady := false))), c, m, true))
    else (false, w)
  }

  /** A request the filter consumes has been given back to the message
      pool (when its connection is owned) and has left the deadline tree;
      after a quit the connection reads no more. */
  lemma FilterConsumes(w: World, c: ConnRef, m: MsgRef)
    requires c in w.conns && PeerOk(w, m)
    requires w.conns[c].owner.Some? ==> w.pool.hasCtx
    ensures var r := RequestFilter(w, c, m);
      (r.0 && w.conns[c].owner.Some? ==>
         |r.1.msgPool.free| > 0 && r.1.msgPool.free[|r.1.msgPool.free| - 1] == m &&
         r.1.tree == RbTree.RemoveAsWritten(w.tree, m) && r.1.msgs[m].mbufs == []) &&
      (r.0 && !MsgEmpty(w.msgs[m]) ==> r.1.conns[c].io.eof && !r.1.conns[c].io.recvReady)
  {
    var x := w.conns[c];
    var w1 := WithConn(w, c, x.(io := x.io.(eof := true, recvReady := false)));
    assert PeerOk(w1, m) && w1.conns[c].owner == x.owner;
  }

  /** The errno values a forward can see: after the failing call, and
      after the connection's own addOutput fails. */
  datatype Errnos = Errnos(first: int, second: int)

  /** requestForwardError(conn): the request is marked done and in error
      with errno. A noreply request is freed (forced). Otherwise the
      client is asked to write (requestDone always holds) and, when that
      fails, the request takes the new errno. The errno after the call is
      returned too. */
  function RequestForwardError(w: World, c: ConnRef, m: MsgRef, addOut: int, e: Errnos): (r: (World, int))
    requires c in w.conns && PeerOk(w, m)
    requires w.conns[c].owner.Some? ==> w.pool.hasCtx
    ensures var x := w.msgs[m].(done := true, error := true, err := e.first);
      w.msgs[m].noreply ==> r == (FreeMsg(WithMsg(w, m, x), c, m, true), e.first)
    ensures !w.msgs[m].noreply ==>
              var (st, io, _) := Epoll.AddOutput(w.conns[c].io, addOut);
              r.0.conns == w.conns[c := w.conns[c].(io := io)] &&
              r.0.msgs == w.msgs[m := w.msgs[m].(done := true, error := true,
                                                  err := if st != Ok then e.second else e.first)] &&
              r.0 == w.(conns := r.0.conns, msgs := r.0.msgs) &&
              r.1 == (if st != Ok then e.second else e.first)
  {
    var x := w.msgs[m].(done := true, error := true, err := e.first);
    var w1 := WithMsg(w, m, x);
    if x.noreply then
      assert PeerOk(w1, m);
      (FreeMsg(w1, c, m, true), e.first)
    else
      var conn := w.conns[c];
      var (st, io, _) := Epoll.AddOutput(conn.io, addOut);
      var w2 := WithConn(w1, c, conn.(io := io));
      if st != Ok then (WithMsg(w2, m, x.(err := e.second)), e.second) else (w2, e.first)
  }

  /** requestMakeReply(conn): a response is taken from the message pool
      (ENOMEM, with errno recorded on the request, when there is none);
      request and response become each other's peer, the request is done
      and it is queued on the connection's outstanding queue. */
  function RequestMakeReply(w: World, c: ConnRef, m: MsgRef, made: Option<MsgRef>, blank: Msg, errno: int)
    : (r: (int, World))
    requires c in w.conns && m in w.msgs && MsgsIn(w, w.msgPool.free)
    requires made.Some? ==> made.value !in w.msgs
    requires blank.mbufs == [] && blank.key == 0 && blank.data.None?
    ensures var (w1, o) := AllocMsg(w, made, blank);
      o.None? ==> r == (NoMem, WithMsg(w1, m, w.msgs[m].(err := errno)))
    ensures var o := Alloc(w.msgPool, made).1;
      o.Some? ==>
        r.0 == Ok && o.value in r.1.msgs && m in r.1.msgs && r.1.msgs[m].peer == Some(o.value) && r.1.msgs[o.value].peer == Some(m) &&
        r.1.msgs[m].done && r.1.conns == w.conns[c := EnqueueOutput(w.conns[c], m)] &&
        r.1.msgPool == Alloc(w.msgPool, made).0 && r.1.msgs.Keys == AllocMsg(w, made, blank).0.msgs.Keys
    ensures var o := Alloc(w.msgPool, made).1;
      o.Some? && o.value != m ==>
        r.1.msgs[m] == w.msgs[m].(peer := o, done := true) &&
        r.1.msgs[o.value] == AllocMsg(w, made, blank).0.msgs[o.value].(peer := Some(m))
  {
    var (w1, o) := AllocMsg(w, made, blank);
    if o.None? then (NoMem, WithMsg(w1, m, w.msgs[m].(err := errno)))
    else
      var rsp := o.value;
      assert rsp in w1.msgs by {
        assert w.msgPool.free != [] ==> w.msgPool.free[0] in w.msgs;
      }
      var w2 := WithMsg(w1, m, w1.msgs[m].(peer := Some(rsp)));
      var w3 := WithMsg(w2, rsp, w2.msgs[rsp].(peer := Some(m)));
      var w4 := WithMsg(w3, m, w3.msgs[m].(done := true));
      (Ok, WithConn(w4, c, EnqueueOutput(w4.conns[c], m)))
  }

  /** Making a reply touches only the message table, the message pool and
      the connection's outstanding queue. */
  lemma RequestMakeReplyFrame(w: World, c: ConnRef, m: MsgRef, made: Option<MsgRef>, blank: Msg, errno: int)
    requires c in w.conns && m in w.msgs && MsgsIn(w, w.msgPool.free)
    requires made.Some? ==> made.value !in w.msgs
    requires blank.mbufs == [] && blank.key == 0 && blank.data.None?
    ensures var r := RequestMakeReply(w, c, m, made, blank, errno).1;
      r == w.(msgs := r.msgs, msgPool := r.msgPool, conns := r.conns) &&
      c in r.conns && r.conns[c] == w.conns[c].(omsgQ := r.conns[c].omsgQ)
  {
  }

  /** The reply a request makes is freed with it: a forced free of the
      request gives the response and then the request back to the message
      pool, and unlinks them. */
  lemma MakeReplyThenFreeReleasesBoth(w: World, c: ConnRef, m: MsgRef, made: Option<MsgRef>, blank: Msg, errno: int)
    requires c in w.conns && m in w.msgs && MsgsIn(w, w.msgPool.free)
    requires made.Some? ==> made.value !in w.msgs
    requires blank.mbufs == [] && blank.key == 0 && blank.data.None?
    requires w.conns[c].owner.Some? && w.pool.hasCtx
    ensures var r := RequestMakeReply(w, c, m, made, blank, errno);
      r.0 == Ok ==>
        PeerOk(r.1, m) &&
        var f := FreeMsg(r.1, c, m, true);
        var rsp := r.1.msgs[m].peer.value;
        f.msgPool.free == r.1.msgPool.free + [rsp, m] &&
        f.msgs[m].peer.None? && f.msgs[rsp].peer.None?
  {
  }

  /** The server connections a request can be forwarded to exist: those
      in the server connection pool and those queued on the servers. */
  ghost predicate LiveTargets(w: World) {
    ConnsIn(w, w.sPool.free) &&
    (forall i, j :: (0 <= i < |w.pool.servers| && 0 <= j < |w.pool.servers[i].connQ| &&
                     w.pool.servers[i].connQ[j].Some?) ==> w.pool.servers[i].connQ[j].value in w.conns)
  }

  lemma WfLiveTargets(w: World)
    requires Wf(w)
    ensures LiveTargets(w)
  {
  }

  /** A server's getConn hands out a connection that exists. */
  lemma GetConnLive(w: World, i: nat, made: Option<ConnRef>, blank: Conn)
    requires i < |w.pool.servers| && LiveTargets(w)
    requires made.Some? ==> made.value !in w.conns
    requires Constructed(blank, ServerRole)
    ensures var r := Servers.GetConn(w, i, made, blank);
      (r.1.Some? ==> r.1.value in r.0.conns) && w.conns.Keys <= r.0.conns.Keys
  {
    var q := w.pool.servers[i].connQ;
    if w.sPool.free != [] {
      assert w.sPool.free[0] in w.conns;
    }
    if q != [] && q[0].Some? {
      assert q[0].value in w.conns;
    }
  }

  /** What forwarding asks of the outside: the index the key hashes to,
      the new server connection and its state (for the server connection
      pool), the status of the server's and the client's addOutput, and
      the errno values seen. */
  datatype ForwardEnv = ForwardEnv(idx: nat, sMade: Option<ConnRef>, sBlank: Conn,
                                   sAddOut: int, cAddOut: int, e: Errnos)

  /** The server connection forwarding uses: getConn of the server the
      index picks, after the request was queued on the client (unless it
      is noreply). */
  function ForwardTarget(w: World, c: ConnRef, m: MsgRef, env: ForwardEnv): (r: (World, World, Option<ConnRef>))
    requires c in w.conns && m in w.msgs && |w.pool.servers| > 0
    requires env.sMade.Some? ==> env.sMade.value !in w.conns
    requires Constructed(env.sBlank, ServerRole)
    ensures r.0 == (if w.msgs[m].noreply then w else WithConn(w, c, EnqueueOutput(w.conns[c], m)))
    ensures (r.1, r.2) == Servers.GetConn(r.0, PickServer(w.pool, env.idx), env.sMade, env.sBlank)
  {
    var w0 := if w.msgs[m].noreply then w else WithConn(w, c, EnqueueOutput(w.conns[c], m));
    var (w1, so) := Servers.GetConn(w0, PickServer(w0.pool, env.idx), env.sMade, env.sBlank);
    (w0, w1, so)
  }

  /** The second half of requestForward, once server connection `s` is
      known: when its input queue is empty it is asked to write first; if
      that fails the forward fails and `s` takes the errno left behind.
      Otherwise the request is queued on its input queue. */
  function Deliver(w: World, c: ConnRef, m: MsgRef, s: ConnRef, env: ForwardEnv): (r: World)
    requires c in w.conns && s in w.conns && PeerOk(w, m)
    requires w.conns[c].owner.Some? ==> w.pool.hasCtx
    ensures s in r.conns
    ensures var sx := w.conns[s];
      var (st, io, _) := Epoll.AddOutput(sx.io, env.sAddOut);
      (sx.imsgQ != [] || st == Ok ==>
         r == WithConn(w, s, EnqueueInput(sx.(io := if sx.imsgQ == [] then io else sx.io), m))) &&
      (sx.imsgQ == [] && st != Ok ==>
         var f := RequestForwardError(WithConn(w, s, sx.(io := io)), c, m, env.cAddOut, env.e);
         r == WithConn(f.0, s, f.0.conns[s].(io := f.0.conns[s].io.(err := f.1))))
  {
    var sx := w.conns[s];
    if sx.imsgQ == [] then
      var (st, io, _) := Epoll.AddOutput(sx.io, env.sAddOut);
      var w2 := WithConn(w, s, sx.(io := io));
      assert PeerOk(w2, m) && w2.conns[c].owner.Some? == w.conns[c].owner.Some?;
      if st != Ok then
        var f := RequestForwardError(w2, c, m, env.cAddOut, env.e);
        WithConn(f.0, s, f.0.conns[s].(io := f.0.conns[s].io.(err := f.1)))
      else WithConn(w2, s, EnqueueInput(w2.conns[s], m))
    else WithConn(w, s, EnqueueInput(sx, m))
  }

  /** requestForward(conn): a request that expects a reply is queued on
      the client's outstanding queue; the server connection comes from
      the server the key's index picks; without one the forward fails,
      otherwise the request is delivered to it.

      So the request joins the client's outstanding queue exactly when a
      reply is expected (the connection picked being another one). It
      lands at the tail of the picked server connection's input queue
      unless asking that connection for write interest fails, which is
      asked only when its queue was empty. Without a server connection,
      or when that asking fails, the request ends done and in error. */
  function RequestForward(w: World, c: ConnRef, m: MsgRef, env: ForwardEnv): (r: World)
    requires c in w.conns && PeerOk(w, m) && |w.pool.servers| > 0 && LiveTargets(w)
    requires w.conns[c].owner.Some? ==> w.pool.hasCtx
    requires env.sMade.Some? ==> env.sMade.value !in w.conns
    requires Constructed(env.sBlank, ServerRole)
    ensures c in r.conns && m in r.msgs
    ensures var so := ForwardTarget(w, c, m, env).2;
      w.conns[c].role == ClientRole && (so.None? || so.value != c) ==>
        r.conns[c].omsgQ == (if w.msgs[m].noreply then w.conns[c].omsgQ else w.conns[c].omsgQ + [m])
    ensures ForwardTarget(w, c, m, env).2.None? ==> r.msgs[m].done && r.msgs[m].error
    ensures var (w0, w1, so) := ForwardTarget(w, c, m, env);
      so.Some? && so.value in w1.conns && w1.conns[so.value].role == ServerRole ==>
        var sx := w1.conns[so.value];
        var st := Epoll.AddOutput(sx.io, env.sAddOut).0;
        so.value in r.conns &&
        (sx.imsgQ != [] ==> r.conns[so.value].io == sx.io) &&
        (sx.imsgQ != [] || st == Ok ==> r.conns[so.value].imsgQ == sx.imsgQ + [m]) &&
        (sx.imsgQ == [] && st != Ok ==> r.conns[so.value].imsgQ == [] && r.msgs[m].done && r.msgs[m].error)
  {
    var (w0, w1, so) := ForwardTarget(w, c, m, env);
    ForwardTargetKeeps(w, c, m, env);
    ForwardClientQueue(w, c, m, env);
    match so
    case None =>
      ForwardErrorMarks(w1, c, m, env.cAddOut, env.e);
      RequestForwardError(w1, c, m, env.cAddOut, env.e).0
    case Some(s) =>
      DeliverQueues(w1, c, m, s, env);
      Deliver(w1, c, m, s, env)
  }

  /** getConn leaves the records of existing connections alone. */
  lemma GetConnKeepsConns(w: World, i: nat, made: Option<ConnRef>, blank: Conn, c: ConnRef)
    requires i < |w.pool.servers| && c in w.conns
    requires made.Some? ==> made.value !in w.conns
    requires Constructed(blank, ServerRole)
    ensures var r := Servers.GetConn(w, i, made, blank);
      c in r.0.conns && r.0.conns[c] == w.conns[c] && r.0.msgs == w.msgs && r.0.pool.hasCtx == w.pool.hasCtx
  {
  }

  /** Picking the target keeps the client, its owner, the request and the
      context, and a connection it returns exists. */
  lemma ForwardTargetKeeps(w: World, c: ConnRef, m: MsgRef, env: ForwardEnv)
    requires c in w.conns && PeerOk(w, m) && |w.pool.servers| > 0 && LiveTargets(w)
    requires env.sMade.Some? ==> env.sMade.value !in w.conns
    requires Constructed(env.sBlank, ServerRole)
    ensures var (w0, w1, so) := ForwardTarget(w, c, m, env);
      c in w1.conns && PeerOk(w1, m) && w1.conns[c].owner == w.conns[c].owner &&
      w1.pool.hasCtx == w.pool.hasCtx && (so.Some? ==> so.value in w1.conns)
  {
    var (w0, w1, so) := ForwardTarget(w, c, m, env);
    assert w0.pool == w.pool && w0.sPool == w.sPool && w0.msgs == w.msgs && w0.conns.Keys == w.conns.Keys;
    assert w0.conns[c].owner == w.conns[c].owner;
    assert LiveTargets(w0);
    var i := PickServer(w.pool, env.idx);
    GetConnLive(w0, i, env.sMade, env.sBlank);
    GetConnKeepsConns(w0, i, env.sMade, env.sBlank, c);
  }

  /** A failed forward touches no connection's queues. */
  lemma ForwardErrorKeepsQueues(w: World, c: ConnRef, m: MsgRef, addOut: int, e: Errnos, x: ConnRef)
    requires c in w.conns && PeerOk(w, m) && x in w.conns
    requires w.conns[c].owner.Some? ==> w.pool.hasCtx
    ensures var r := RequestForwardError(w, c, m, addOut, e).0;
      x in r.conns && r.conns[x].omsgQ == w.conns[x].omsgQ && r.conns[x].imsgQ == w.conns[x].imsgQ
  {
  }

  /** A failed forward leaves the request done and in error. */
  lemma ForwardErrorMarks(w: World, c: ConnRef, m: MsgRef, addOut: int, e: Errnos)
    requires c in w.conns && PeerOk(w, m)
    requires w.conns[c].owner.Some? ==> w.pool.hasCtx
    ensures var r := RequestForwardError(w, c, m, addOut, e).0;
      m in r.msgs && r.msgs[m].done && r.msgs[m].error
  {
    var x := w.msgs[m].(done := true, error := true, err := e.first);
    var w1 := WithMsg(w, m, x);
    if x.noreply {
      assert PeerOk(w1, m);
      var r := FreeMsg(w1, c, m, true);
      assert RequestForwardError(w, c, m, addOut, e).0 == r;
      FreeMsgKeepsFlags(w1, c, m, true);
    }
  }

  /** Delivery to server connection `s` queues the request at the tail of
      its input queue unless asking for write interest fails, and asks only
      when that queue was empty; other connections keep their outstanding
      queues. When asking fails the request ends done and in error. */
  lemma DeliverQueues(w: World, c: ConnRef, m: MsgRef, s: ConnRef, env: ForwardEnv)
    requires c in w.conns && s in w.conns && PeerOk(w, m)
    requires w.conns[c].owner.Some? ==> w.pool.hasCtx
    ensures var r := Deliver(w, c, m, s, env);
      var sx := w.conns[s];
      var st := Epoll.AddOutput(sx.io, env.sAddOut).0;
      sx.role == ServerRole ==>
        (sx.imsgQ != [] ==> r.conns[s].io == sx.io) &&
        (sx.imsgQ != [] || st == Ok ==> r.conns[s].imsgQ == sx.imsgQ + [m]) &&
        (sx.imsgQ == [] && st != Ok ==> r.conns[s].imsgQ == [] && m in r.msgs && r.msgs[m].done && r.msgs[m].error)
  {
    var sx := w.conns[s];
    var (st, io, _) := Epoll.AddOutput(sx.io, env.sAddOut);
    if sx.imsgQ == [] && st != Ok {
      var w2 := WithConn(w, s, sx.(io := io));
      ForwardErrorKeepsQueues(w2, c, m, env.cAddOut, env.e, s);
      ForwardErrorMarks(w2, c, m, env.cAddOut, env.e);
    }
  }

  /** Delivery to `s` leaves every other connection's outstanding queue. */
  lemma DeliverKeepsOthers(w: World, c: ConnRef, m: MsgRef, s: ConnRef, env: ForwardEnv, x: ConnRef)
    requires c in w.conns && s in w.conns && PeerOk(w, m) && x in w.conns && x != s
    requires w.conns[c].owner.Some? ==> w.pool.hasCtx
    ensures var r := Deliver(w, c, m, s, env);
      x in r.conns && r.conns[x].omsgQ == w.conns[x].omsgQ
  {
    var sx := w.conns[s];
    var (st, io, _) := Epoll.AddOutput(sx.io, env.sAddOut);
    if sx.imsgQ == [] && st != Ok {
      var w2 := WithConn(w, s, sx.(io := io));
      ForwardErrorKeepsQueues(w2, c, m, env.cAddOut, env.e, x);
    }
  }

  /** Forwarding puts the request on the client's outstanding queue
      exactly when a reply is expected (the server connection picked being
      another connection), whether the forward fails or is delivered. */
  lemma ForwardClientQueue(w: World, c: ConnRef, m: MsgRef, env: ForwardEnv)
    requires c in w.conns && PeerOk(w, m) && |w.pool.servers| > 0 && LiveTargets(w)
    requires w.conns[c].owner.Some? ==> w.pool.hasCtx
    requires env.sMade.Some? ==> env.sMade.value !in w.conns
    requires Constructed(env.sBlank, ServerRole)
    ensures var (w0, w1, so) := ForwardTarget(w, c, m, env);
      var want := if w.msgs[m].noreply then w.conns[c].omsgQ else w.conns[c].omsgQ + [m];
      w.conns[c].role == ClientRole && c in w1.conns && PeerOk(w1, m) &&
      (w1.conns[c].owner.Some? ==> w1.pool.hasCtx) ==>
        (so.None? ==> RequestForwardError(w1, c, m, env.cAddOut, env.e).0.conns[c].omsgQ == want) &&
        (so.Some? && so.value in w1.conns && so.value != c ==>
           Deliver(w1, c, m, so.value, env).conns[c].omsgQ == want)
  {
    var (w0, w1, so) := ForwardTarget(w, c, m, env);
    if w.conns[c].role == ClientRole && c in w1.conns && PeerOk(w1, m) && (w1.conns[c].owner.Some? ==> w1.pool.hasCtx) {
      var want := if w.msgs[m].noreply then w.conns[c].omsgQ else w.conns[c].omsgQ + [m];
      assert c in w0.conns && w0.conns[c].omsgQ == want;
      GetConnKeepsConns(w0, PickServer(w.pool, env.idx), env.sMade, env.sBlank, c);
      assert c in w1.conns && w1.conns[c].omsgQ == want;
      match so
      case None =>
        ForwardErrorKeepsQueues(w1, c, m, env.cAddOut, env.e, c);
      case Some(sc) =>
        if sc in w1.conns && sc != c {
          DeliverKeepsOthers(w1, c, m, sc, env, c);
        }
    }
  }
}
