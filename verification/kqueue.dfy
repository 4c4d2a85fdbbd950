/** The kqueue backend of NcEventBase (event/nc_kqueue.cpp). Interest
    changes are queued in a change list that the next kevent call submits;
    kevent itself is replaced by the sequence of its outcomes, and what a
    callback does to the pending batch is reduced to the descriptors it
    passed to delConn. */
module Kqueue {
  import opened Common
  import opened Event

  const EvFiltRead: int := -1
  const EvFiltWrite: int := -2
  const EvAdd: bv32 := 0x0001
  const EvDelete: bv32 := 0x0002
  const EvClear: bv32 := 0x0020
  const EvError: bv32 := 0x4000

  /** A struct kevent: identifier, filter, flags, the errno in `data` for
      an EV_ERROR entry, and the connection pointer (None for NULL). */
  datatype KEvent = KEvent(ident: nat, filter: int, flags: bv32, data: int, udata: Option<nat>)

  /** The backend's state: the queued changes, the last batch returned,
      how many entries kevent returned and how far dispatch has got. */
  datatype Kq = Kq(changes: seq<KEvent>, events: seq<KEvent>, nreturned: int, nprocessed: int)

  /** The change entry for connection `self` with descriptor `sd`. */
  function Change(sd: int, filter: int, flags: bv32, self: nat): KEvent {
    KEvent(U64(sd), filter, flags, 0, Some(self))
  }

  /** addInput: when reading is not armed, queue an EV_ADD|EV_CLEAR read
      filter and mark it armed; always returns 0. */
  function AddInput(k: Kq, c: ConnIo, self: nat): (r: (Kq, ConnIo))
    ensures c.recvActive ==> r == (k, c)
    ensures !c.recvActive ==>
      r.0 == k.(changes := k.changes + [Change(c.sd, EvFiltRead, EvAdd | EvClear, self)]) &&
      r.1 == c.(recvActive := true)
  {
    if c.recvActive then (k, c)
    else (k.(changes := k.changes + [Change(c.sd, EvFiltRead, EvAdd | EvClear, self)]),
          c.(recvActive := true))
  }

  /** delInput: when reading is armed, queue an EV_DELETE for the read
      filter and mark it disarmed. */
  function DelInput(k: Kq, c: ConnIo, self: nat): (r: (Kq, ConnIo))
    ensures !c.recvActive ==> r == (k, c)
    ensures c.recvActive ==>
      r.0 == k.(changes := k.changes + [Change(c.sd, EvFiltRead, EvDelete, self)]) &&
      r.1 == c.(recvActive := false)
  {
    if !c.recvActive then (k, c)
    else (k.(changes := k.changes + [Change(c.sd, EvFiltRead, EvDelete, self)]),
          c.(recvActive := false))
  }

  function AddOutput(k: Kq, c: ConnIo, self: nat): (r: (Kq, ConnIo))
    ensures c.sendActive ==> r == (k, c)
    ensures !c.sendActive ==>
      r.0 == k.(changes := k.changes + [Change(c.sd, EvFiltWrite, EvAdd | EvClear, self)]) &&
      r.1 == c.(sendActive := true)
  {
    if c.sendActive then (k, c)
    else (k.(changes := k.changes + [Change(c.sd, EvFiltWrite, EvAdd | EvClear, self)]),
          c.(sendActive := true))
  }

  function DelOutput(k: Kq, c: ConnIo, self: nat): (r: (Kq, ConnIo))
    ensures !c.sendActive ==> r == (k, c)
    ensures c.sendActive ==>
      r.0 == k.(changes := k.changes + [Change(c.sd, EvFiltWrite, EvDelete, self)]) &&
      r.1 == c.(sendActive := false)
  {
    if !c.sendActive then (k, c)
    else (k.(changes := k.changes + [Change(c.sd, EvFiltWrite, EvDelete, self)]),
          c.(sendActive := false))
  }

  /** addConn: addInput when READ is asked for, then addOutput when WRITE
      is; returns 0. */
  function AddConn(k: Kq, c: ConnIo, self: nat, events: bv32): (r: (Kq, ConnIo))
    ensures r.1.recvActive == (c.recvActive || events & EventRead != 0)
    ensures r.1.sendActive == (c.sendActive || events & EventWrite != 0)
    ensures r.1 == c.(recvActive := r.1.recvActive, sendActive := r.1.sendActive)
    ensures r.0.events == k.events && r.0.nreturned == k.nreturned && r.0.nprocessed == k.nprocessed
    ensures k.changes <= r.0.changes && |r.0.changes| <= |k.changes| + 2
  {
    var (k1, c1) := if events & EventRead != 0 then AddInput(k, c, self) else (k, c);
    if events & EventWrite != 0 then AddOutput(k1, c1, self) else (k1, c1)
  }

  /** The first entry in [i, n) of the batch for descriptor `sd` loses its
      flags and filter; the rest of the batch is untouched. */
  function Neutralise(evs: seq<KEvent>, i: int, n: int, sd: int): (r: seq<KEvent>)
    ensures |r| == |evs|
    decreases n - i
  {
    if i >= n || i < 0 || i >= |evs| then evs
    else if evs[i].ident == U64(sd) then evs[i := evs[i].(flags := 0, filter := 0)]
    else Neutralise(evs, i + 1, n, sd)
  }

  /** Neutralise changes at most one entry: the first in range with the
      descriptor's identifier, which keeps its identifier and pointer. */
  lemma {:induction false} NeutraliseFirstMatch(evs: seq<KEvent>, i: int, n: int, sd: int)
    requires 0 <= i
    ensures var r := Neutralise(evs, i, n, sd);
      (r == evs) ||
      (exists j :: i <= j < n && j < |evs| && evs[j].ident == U64(sd) &&
         (forall m :: i <= m < j ==> evs[m].ident != U64(sd)) &&
         r == evs[j := evs[j].(flags := 0, filter := 0)])
    ensures Neutralise(evs, i, n, sd) == evs <== forall m :: i <= m < n && m < |evs| ==> evs[m].ident != U64(sd)
    decreases n - i
  {
    if !(i >= n || i >= |evs|) && evs[i].ident != U64(sd) {
      NeutraliseFirstMatch(evs, i + 1, n, sd);
    }
  }

  /** delConn: delOutput, then delInput, then the pending entry for the
      descriptor after the one being processed is neutralised; returns 0. */
  function DelConn(k: Kq, c: ConnIo, self: nat): (r: (Kq, ConnIo))
    ensures !r.1.recvActive && !r.1.sendActive
    ensures r.1 == c.(recvActive := false, sendActive := false)
    ensures r.0.nreturned == k.nreturned && r.0.nprocessed == k.nprocessed
    ensures r.0.events == Neutralise(k.events, k.nprocessed + 1, k.nreturned, c.sd)
  {
    var (k1, c1) := DelOutput(k, c, self);
    var (k2, c2) := DelInput(k1, c1, self);
    (k2.(events := Neutralise(k2.events, k2.nprocessed + 1, k2.nreturned, c.sd)), c2)
  }

  /** The timespec wait passes kevent: none (block) for a negative timeout,
      otherwise whole seconds and the remaining milliseconds in
      nanoseconds. */
  function Timespec(timeout: int): (r: Option<(int, int)>)
    ensures r.None? <==> timeout < 0
    ensures r.Some? ==> r.value.0 >= 0 && 0 <= r.value.1 < 1000000000 &&
                        r.value.1 % 1000000 == 0 &&
                        r.value.0 * 1000 + r.value.1 / 1000000 == timeout
  {
    if timeout < 0 then None else Some((timeout / 1000, (timeout % 1000) * 1000000))
  }

  /** The mask for one returned entry, None when it is skipped: an
      EV_ERROR entry whose errno is EBADF, EINVAL, ENOENT or EINTR is
      skipped, any other carries ERR; the filter adds READ or WRITE. */
  function Deliver(ev: KEvent): (r: Option<bv32>)
    ensures r.None? <==> ev.flags & EvError != 0 && ev.data in {EBADF, EINVAL, ENOENT, EINTR}
    ensures r.Some? ==> (r.value & EventErr != 0 <==> ev.flags & EvError != 0)
    ensures r.Some? ==> (r.value & EventRead != 0 <==> ev.filter == EvFiltRead)
    ensures r.Some? ==> (r.value & EventWrite != 0 <==> ev.filter == EvFiltWrite)
  {
    if ev.flags & EvError != 0 && ev.data in {EBADF, EINVAL, ENOENT, EINTR} then None
    else Some((if ev.flags & EvError != 0 then EventErr else 0) |
              (if ev.filter == EvFiltRead then EventRead else 0) |
              (if ev.filter == EvFiltWrite then EventWrite else 0))
  }

  /** A neutralised entry is not skipped but carries no event at all. */
  lemma NeutralisedDeliversNothing(ev: KEvent)
    ensures Deliver(ev.(flags := 0, filter := 0)) == Some(0)
  {
  }

  /** The descriptors the callback at index `i` passed to delConn. */
  function Deleted(dels: seq<seq<int>>, i: nat): seq<int> {
    if i < |dels| then dels[i] else []
  }

  /** Neutralisation for every descriptor in `sds`, in order, while entry
      `i` is being processed. */
  function NeutraliseAll(evs: seq<KEvent>, i: int, n: int, sds: seq<int>): (r: seq<KEvent>)
    ensures |r| == |evs|
    decreases |sds|
  {
    if sds == [] then evs else NeutraliseAll(Neutralise(evs, i + 1, n, sds[0]), i, n, sds[1..])
  }

  /** The dispatch loop from entry `i`: every entry that is not skipped
      and has a connection runs its callback, whose delConn calls
      neutralise later entries. `skipEmpty` is the guard the loop should
      have: a callback only for a non-empty mask. */
  function DispatchWith(evs: seq<KEvent>, i: nat, dels: seq<seq<int>>, skipEmpty: bool): (r: seq<(nat, bv32)>)
    ensures skipEmpty ==> forall j :: 0 <= j < |r| ==> r[j].1 != 0
    ensures |r| <= |evs| - i || i > |evs|
    decreases |evs| - i
  {
    if i >= |evs| then []
    else
      var ev := evs[i];
      var m := Deliver(ev);
      if m.None? || ev.udata.None? || (skipEmpty && m.value == 0) then
        DispatchWith(evs, i + 1, dels, skipEmpty)
      else
        var evs' := NeutraliseAll(evs, i, |evs|, Deleted(dels, i));
        [(ev.udata.value, m.value)] + DispatchWith(evs', i + 1, dels, skipEmpty)
  }

  /** The loop as written: a neutralised entry still reaches its
      connection's callback, with an empty mask, after delConn has told
      the caller it may free that connection. */
  function DispatchAsWritten(evs: seq<KEvent>, dels: seq<seq<int>>): (r: seq<(nat, bv32)>)
    ensures |r| <= |evs|
  {
    DispatchWith(evs, 0, dels, false)
  }

  /** The loop with the empty-mask guard: no callback ever gets an empty
      mask, so no neutralised entry reaches a connection. */
  function Dispatch(evs: seq<KEvent>, dels: seq<seq<int>>): (r: seq<(nat, bv32)>)
    ensures |r| <= |evs|
    ensures forall j :: 0 <= j < |r| ==> r[j].1 != 0
  {
    DispatchWith(evs, 0, dels, true)
  }

  /** Connection 7 (descriptor 5) has a read and a write entry in one
      batch; its read callback closes it. As written the write entry is
      still delivered to connection 7, with mask 0; with the guard it is
      not. */
  lemma CallbackAfterDelConn()
    ensures var evs := [KEvent(5, EvFiltRead, 0, 0, Some(7)), KEvent(5, EvFiltWrite, 0, 0, Some(7))];
      DispatchAsWritten(evs, [[5]]) == [(7, EventRead), (7, 0)] &&
      Dispatch(evs, [[5]]) == [(7, EventRead)]
  {
    var evs := [KEvent(5, EvFiltRead, 0, 0, Some(7)), KEvent(5, EvFiltWrite, 0, 0, Some(7))];
    assert U64(5) == 5;
    var evs' := evs[1 := evs[1].(flags := 0, filter := 0)];
    assert Neutralise(evs, 1, 2, 5) == evs';
    assert NeutraliseAll(evs, 0, 2, [5]) == evs' by {
      assert [5][1..] == [];
    }
    assert Deliver(evs[0]) == Some(EventRead);
    assert Deliver(evs'[1]) == Some(0);
    assert Deleted([[5]], 0) == [5];
    assert Deleted([[5]], 1) == [];
    assert NeutraliseAll(evs', 1, 2, []) == evs';
    assert DispatchWith(evs', 2, [[5]], false) == [];
    assert DispatchWith(evs', 1, [[5]], false) == [(7, 0)] + DispatchWith(evs', 2, [[5]], false);
    assert DispatchWith(evs, 0, [[5]], false) == [(7, EventRead)] + DispatchWith(evs', 1, [[5]], false);
    assert DispatchWith(evs', 2, [[5]], true) == [];
    assert DispatchWith(evs', 1, [[5]], true) == DispatchWith(evs', 2, [[5]], true);
    assert DispatchWith(evs, 0, [[5]], true) == [(7, EventRead)] + DispatchWith(evs', 1, [[5]], true);
  }

  /** What one kevent call produced: the returned entries (an empty batch
      is a return of 0) or a failure with its errno. */
  datatype KeventOutcome = Returned(evs: seq<KEvent>) | Failed(errno: int)

  /** wait(timeout): each kevent call submits the queued changes and the
      queue is emptied right after it, so a call retried after EINTR
      submits nothing. The result is the return code, the state, the
      change list each call submitted and the callbacks run; `skipEmpty`
      selects the dispatch loop (see DispatchWith). */
  function WaitWith(k: Kq, timeout: int, outs: seq<KeventOutcome>, dels: seq<seq<int>>, skipEmpty: bool)
    : (r: Option<(int, Kq, seq<seq<KEvent>>, seq<(nat, bv32)>)>)
    ensures r.Some? ==> r.value.1.changes == [] && r.value.0 >= -1
    ensures r.Some? ==> |r.value.2| >= 1 && r.value.2[0] == k.changes &&
                        forall j :: 1 <= j < |r.value.2| ==> r.value.2[j] == []
    ensures r.Some? && r.value.0 <= 0 ==> r.value.3 == []
    ensures outs != [] && outs[0].Returned? && outs[0].evs != [] ==>
              r.Some? && r.value.0 == |outs[0].evs| && r.value.3 == DispatchWith(outs[0].evs, 0, dels, skipEmpty) &&
              r.value.1.nprocessed == r.value.1.nreturned == |outs[0].evs|
    ensures outs != [] && outs[0] == Returned([]) ==>
              r.Some? && r.value.0 == (if timeout == -1 then -1 else 0)
    ensures outs != [] && outs[0].Failed? && outs[0].errno != EINTR ==> r.Some? && r.value.0 == -1
    ensures r.Some? && skipEmpty ==> forall j :: 0 <= j < |r.value.3| ==> r.value.3[j].1 != 0
    decreases |outs|
  {
    if outs == [] then None
    else
      var submitted := k.changes;
      var k1 := k.(changes := []);
      match outs[0]
      case Returned(evs) =>
        if |evs| > 0 then
          Some((|evs|, k1.(events := StateFrom(evs, 0, dels, skipEmpty), nreturned := |evs|, nprocessed := |evs|),
                [submitted], DispatchWith(evs, 0, dels, skipEmpty)))
        else Some((if timeout == -1 then -1 else 0, k1.(nreturned := 0), [submitted], []))
      case Failed(e) =>
        if e == EINTR then
          var rest := WaitWith(k1.(nreturned := -1), timeout, outs[1..], dels, skipEmpty);
          if rest.None? then None
          else Some((rest.value.0, rest.value.1, [submitted] + rest.value.2, rest.value.3))
        else Some((-1, k1.(nreturned := -1), [submitted], []))
  }

  /** wait(timeout) as written: every entry with a connection, a
      neutralised one included, reaches its callback. */
  function Wait(k: Kq, timeout: int, outs: seq<KeventOutcome>, dels: seq<seq<int>>)
    : (r: Option<(int, Kq, seq<seq<KEvent>>, seq<(nat, bv32)>)>)
    ensures r.Some? ==> r.value.1.changes == [] && |r.value.2| >= 1 && r.value.2[0] == k.changes
    ensures outs != [] && outs[0].Returned? && outs[0].evs != [] ==>
              r.Some? && r.value.0 == |outs[0].evs| && r.value.3 == DispatchAsWritten(outs[0].evs, dels) &&
              r.value.1.events == DispatchStateAsWritten(outs[0].evs, dels)
  {
    WaitWith(k, timeout, outs, dels, false)
  }

  /** wait(timeout) with the empty-mask guard: no callback ever gets an
      empty mask. */
  function WaitGuarded(k: Kq, timeout: int, outs: seq<KeventOutcome>, dels: seq<seq<int>>)
    : (r: Option<(int, Kq, seq<seq<KEvent>>, seq<(nat, bv32)>)>)
    ensures r.Some? ==> r.value.1.changes == [] && |r.value.2| >= 1 && r.value.2[0] == k.changes
    ensures r.Some? ==> forall j :: 0 <= j < |r.value.3| ==> r.value.3[j].1 != 0
    ensures outs != [] && outs[0].Returned? && outs[0].evs != [] ==>
              r.Some? && r.value.0 == |outs[0].evs| && r.value.3 == Dispatch(outs[0].evs, dels) &&
              r.value.1.events == DispatchState(outs[0].evs, dels)
  {
    WaitWith(k, timeout, outs, dels, true)
  }

  /** The scenario of CallbackAfterDelConn through wait: kevent returns
      the read and the write entry of connection 7 in one batch and the
      read callback closes it. As written wait still calls connection 7
      with mask 0; with the guard it does not. */
  lemma WaitCallbackAfterDelConn(k: Kq, timeout: int)
    ensures var evs := [KEvent(5, EvFiltRead, 0, 0, Some(7)), KEvent(5, EvFiltWrite, 0, 0, Some(7))];
      Wait(k, timeout, [Returned(evs)], [[5]]).value.3 == [(7, EventRead), (7, 0)] &&
      WaitGuarded(k, timeout, [Returned(evs)], [[5]]).value.3 == [(7, EventRead)]
  {
    CallbackAfterDelConn();
  }

  /** The batch as it stands once the guarded dispatch has finished, with
      every neutralisation the callbacks caused applied. */
  function DispatchState(evs: seq<KEvent>, dels: seq<seq<int>>): (r: seq<KEvent>)
    ensures |r| == |evs|
  {
    StateFrom(evs, 0, dels, true)
  }

  /** The same for the loop as written, where an entry with an empty mask
      also runs its callback and so may neutralise later entries. */
  function DispatchStateAsWritten(evs: seq<KEvent>, dels: seq<seq<int>>): (r: seq<KEvent>)
    ensures |r| == |evs|
  {
    StateFrom(evs, 0, dels, false)
  }

  /** The batch from entry `i` on, following the same branches as
      DispatchWith. */
  function StateFrom(evs: seq<KEvent>, i: nat, dels: seq<seq<int>>, skipEmpty: bool): (r: seq<KEvent>)
    ensures |r| == |evs|
    decreases |evs| - i
  {
    if i >= |evs| then evs
    else
      var ev := evs[i];
      var m := Deliver(ev);
      if m.None? || ev.udata.None? || (skipEmpty && m.value == 0) then StateFrom(evs, i + 1, dels, skipEmpty)
      else StateFrom(NeutraliseAll(evs, i, |evs|, Deleted(dels, i)), i + 1, dels, skipEmpty)
  }

  /** Entries before the one being processed are never neutralised, so
      what has been dispatched stays as it was. */
  lemma {:induction false} NeutraliseKeepsPrefix(evs: seq<KEvent>, i: int, n: int, sd: int)
    requires 0 <= i
    ensures var r := Neutralise(evs, i, n, sd);
      forall m :: 0 <= m < i && m < |evs| ==> r[m] == evs[m]
    decreases n - i
  {
    if !(i >= n || i >= |evs|) && evs[i].ident != U64(sd) {
      NeutraliseKeepsPrefix(evs, i + 1, n, sd);
    }
  }
}
