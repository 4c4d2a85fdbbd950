/** The epoll backend of NcEventBase (event/nc_epoll.cpp). Every
    epoll_ctl call is returned as a record of what was asked, together
    with the status the kernel gave, which is an input; epoll_wait is
    replaced by the sequence of its outcomes. */
module Epoll {
  import opened Common
  import opened Event

  const EpollIn: bv32 := 0x001
  const EpollOut: bv32 := 0x004
  const EpollErr: bv32 := 0x008
  const EpollHup: bv32 := 0x010
  const EpollEt: bv32 := 0x8000_0000

  datatype CtlOp = CtlAdd | CtlDel | CtlMod

  /** One epoll_ctl request: operation, descriptor and interest mask (0
      for a delete, which passes no event). */
  datatype Ctl = Ctl(op: CtlOp, sd: int, mask: bv32)

  /** addInput: nothing to do when reading is already armed; otherwise
      the descriptor is re-armed for input, edge-triggered, and
      recv_active is set only when epoll_ctl succeeded. */
  function AddInput(c: ConnIo, status: int): (r: (int, ConnIo, Option<Ctl>))
    ensures c.recvActive ==> r == (0, c, None)
    ensures !c.recvActive ==> r.0 == status && r.2 == Some(Ctl(CtlMod, c.sd, EpollIn | EpollEt))
    ensures !c.recvActive ==> r.1 == c.(recvActive := status >= 0)
  {
    if c.recvActive then (0, c, None)
    else (status, if status < 0 then c else c.(recvActive := true),
          Some(Ctl(CtlMod, c.sd, EpollIn | EpollEt)))
  }

  /** delInput is a no-op that reports success. */
  function DelInput(c: ConnIo): (r: (int, ConnIo, Option<Ctl>))
    ensures r.0 == 0 && r.1 == c && r.2.None?
  {
    (0, c, None)
  }

  /** addOutput: re-arms for input and output when writing is not yet
      armed. */
  function AddOutput(c: ConnIo, status: int): (r: (int, ConnIo, Option<Ctl>))
    ensures c.sendActive ==> r == (0, c, None)
    ensures !c.sendActive ==> r.0 == status && r.2 == Some(Ctl(CtlMod, c.sd, EpollIn | EpollOut | EpollEt))
    ensures !c.sendActive ==> r.1 == c.(sendActive := status >= 0)
  {
    if c.sendActive then (0, c, None)
    else (status, if status < 0 then c else c.(sendActive := true),
          Some(Ctl(CtlMod, c.sd, EpollIn | EpollOut | EpollEt)))
  }

  /** delOutput: re-arms for input only when writing is armed. */
  function DelOutput(c: ConnIo, status: int): (r: (int, ConnIo, Option<Ctl>))
    ensures !c.sendActive ==> r == (0, c, None)
    ensures c.sendActive ==> r.0 == status && r.2 == Some(Ctl(CtlMod, c.sd, EpollIn | EpollEt))
    ensures c.sendActive ==> r.1 == c.(sendActive := status < 0)
  {
    if !c.sendActive then (0, c, None)
    else (status, if status < 0 then c else c.(sendActive := false),
          Some(Ctl(CtlMod, c.sd, EpollIn | EpollEt)))
  }

  /** The epoll interest mask addConn asks for. */
  function ConnMask(events: bv32): (r: bv32)
    ensures r & EpollIn != 0 <==> events & EventRead != 0
    ensures r & EpollOut != 0 <==> events & EventWrite != 0
    ensures r & EpollEt != 0
    ensures r & !(EpollIn | EpollOut | EpollEt) == 0
  {
    (if events & EventRead != 0 then EpollIn else 0) |
    (if events & EventWrite != 0 then EpollOut else 0) | EpollEt
  }

  /** addConn: one EPOLL_CTL_ADD; success marks both directions active,
      whatever `events` asked for. */
  function AddConn(c: ConnIo, events: bv32, status: int): (r: (int, ConnIo, Ctl))
    ensures r.0 == status && r.2 == Ctl(CtlAdd, c.sd, ConnMask(events))
    ensures status >= 0 ==> r.1 == c.(recvActive := true, sendActive := true)
    ensures status < 0 ==> r.1 == c
  {
    (status, if status < 0 then c else c.(recvActive := true, sendActive := true),
     Ctl(CtlAdd, c.sd, ConnMask(events)))
  }

  /** delConn: one EPOLL_CTL_DEL; success clears both directions. */
  function DelConn(c: ConnIo, status: int): (r: (int, ConnIo, Ctl))
    ensures r.0 == status && r.2 == Ctl(CtlDel, c.sd, 0)
    ensures status >= 0 ==> r.1 == c.(recvActive := false, sendActive := false)
    ensures status < 0 ==> r.1 == c
  {
    (status, if status < 0 then c else c.(recvActive := false, sendActive := false),
     Ctl(CtlDel, c.sd, 0))
  }

  /** A second addInput or addOutput asks the kernel for nothing. */
  lemma AddIsIdempotent(c: ConnIo, s1: int, s2: int)
    requires s1 >= 0
    ensures AddInput(AddInput(c, s1).1, s2) == (0, AddInput(c, s1).1, None)
    ensures AddOutput(AddOutput(c, s1).1, s2) == (0, AddOutput(c, s1).1, None)
  {
  }

  /** addOutput followed by delOutput, both succeeding, leaves writing
      disarmed and everything else as it was. */
  lemma AddOutputThenDelOutput(c: ConnIo, s1: int, s2: int)
    requires s1 >= 0 && s2 >= 0
    ensures DelOutput(AddOutput(c, s1).1, s2).1 == c.(sendActive := false)
  {
  }

  /** One entry epoll_wait filled in: the ready mask and the connection
      pointer (None for NULL). */
  datatype EpollEvent = EpollEvent(events: bv32, ptr: Option<nat>)

  /** The NC event mask for an epoll mask: EPOLLERR gives ERR, EPOLLIN or
      EPOLLHUP give READ, EPOLLOUT gives WRITE. */
  function Translate(m: bv32): (r: bv32)
    ensures r & EventErr != 0 <==> m & EpollErr != 0
    ensures r & EventRead != 0 <==> m & (EpollIn | EpollHup) != 0
    ensures r & EventWrite != 0 <==> m & EpollOut != 0
    ensures r & !(EventErr | EventRead | EventWrite) == 0
  {
    (if m & EpollErr != 0 then EventErr else 0) |
    (if m & (EpollIn | EpollHup) != 0 then EventRead else 0) |
    (if m & EpollOut != 0 then EventWrite else 0)
  }

  /** Callback `d` comes from an entry at index `lo` or later. */
  predicate FromEntry(evs: seq<EpollEvent>, lo: nat, d: (nat, bv32)) {
    exists i :: lo <= i < |evs| && evs[i].ptr == Some(d.0) && d.1 == Translate(evs[i].events)
  }

  /** The callbacks run for a batch of ready entries, in order: entries
      with a NULL pointer are skipped. */
  function Dispatch(evs: seq<EpollEvent>): (r: seq<(nat, bv32)>)
    ensures |r| <= |evs|
    ensures forall j :: 0 <= j < |r| ==> FromEntry(evs, 0, r[j])
    decreases |evs|
  {
    if evs == [] then []
    else
      var rest := Dispatch(evs[1..]);
      assert forall j :: 0 <= j < |rest| ==> FromEntry(evs, 1, rest[j]) by {
        forall j | 0 <= j < |rest| ensures FromEntry(evs, 1, rest[j]) {
          var i :| 0 <= i < |evs[1..]| && evs[1..][i].ptr == Some(rest[j].0) && rest[j].1 == Translate(evs[1..][i].events);
          assert evs[i + 1] == evs[1..][i];
        }
      }
      if evs[0].ptr.None? then rest
      else [(evs[0].ptr.value, Translate(evs[0].events))] + rest
  }

  /** When every entry carries a connection, each one gets its callback,
      in the order epoll_wait returned them. */
  lemma {:induction false} DispatchAllConnections(evs: seq<EpollEvent>)
    requires forall i :: 0 <= i < |evs| ==> evs[i].ptr.Some?
    ensures |Dispatch(evs)| == |evs|
    ensures forall i :: 0 <= i < |evs| ==>
              Dispatch(evs)[i] == (evs[i].ptr.value, Translate(evs[i].events))
    decreases |evs|
  {
    if evs != [] {
      DispatchAllConnections(evs[1..]);
      var r := Dispatch(evs);
      assert r == [(evs[0].ptr.value, Translate(evs[0].events))] + Dispatch(evs[1..]);
      forall i | 1 <= i < |evs|
        ensures r[i] == (evs[i].ptr.value, Translate(evs[i].events))
      {
        assert evs[1..][i - 1] == evs[i];
      }
    }
  }

  /** Entries with a NULL pointer are dropped and change nothing else. */
  lemma NullEntrySkipped(m: bv32, evs: seq<EpollEvent>)
    ensures Dispatch([EpollEvent(m, None)] + evs) == Dispatch(evs)
  {
    assert ([EpollEvent(m, None)] + evs)[1..] == evs;
  }

  /** What one epoll_wait call produced: the ready entries (an empty batch
      is a return of 0) or a failure with its errno. */
  datatype WaitOutcome = Ready(evs: seq<EpollEvent>) | Failed(errno: int)

  /** wait(timeout): the first batch of events is dispatched and its size
      returned; a return of 0 gives -1 when the call may block forever
      (timeout -1) and 0 otherwise; EINTR retries; any other failure
      gives -1. None means the outcomes ran out while retrying. */
  function Wait(outs: seq<WaitOutcome>, timeout: int): (r: Option<(int, seq<(nat, bv32)>)>)
    ensures r.Some? ==> r.value.0 >= -1
    ensures r.Some? && r.value.0 <= 0 ==> r.value.1 == []
    ensures outs != [] && outs[0].Ready? && outs[0].evs != [] ==>
              r == Some((|outs[0].evs|, Dispatch(outs[0].evs)))
    ensures outs != [] && outs[0] == Ready([]) ==> r == Some((if timeout == -1 then -1 else 0, []))
    ensures outs != [] && outs[0].Failed? && outs[0].errno != EINTR ==> r == Some((-1, []))
    decreases |outs|
  {
    if outs == [] then None
    else match outs[0]
      case Ready(evs) =>
        if |evs| > 0 then Some((|evs|, Dispatch(evs)))
        else if timeout == -1 then Some((-1, []))
        else Some((0, []))
      case Failed(e) =>
        if e == EINTR then Wait(outs[1..], timeout) else Some((-1, []))
  }

  /** An interrupted epoll_wait is retried: EINTR in front changes
      nothing. */
  lemma WaitRetriesEintr(outs: seq<WaitOutcome>, timeout: int)
    ensures Wait([Failed(EINTR)] + outs, timeout) == Wait(outs, timeout)
  {
    assert ([Failed(EINTR)] + outs)[1..] == outs;
  }
}
