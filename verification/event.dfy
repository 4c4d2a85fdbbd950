/** The connection base of event/nc_event.h (NcConnBase): the socket
    fields every connection carries, the read/write wrappers that classify
    a system call's outcome, and reset. The event masks handed to
    callbacks are 32-bit words. A system call is replaced by the sequence
    of its outcomes (Util.Io), one per retry. */
module Event {
  import opened Common
  import opened Util

  const EventRead: bv32 := 0x1
  const EventWrite: bv32 := 0x10
  const EventErr: bv32 := 0x100

  /** The NC_EVENT_* return codes. */
  const EventOk: int := 0
  const EventError: int := -1
  const EventAgain: int := -2

  /** sizeof(struct sockaddr). */
  const SockaddrSize: nat := 16

  datatype ConnType = Unknown | Proxy | Client | Server

  /** The NcConnBase fields. `addr` is the address the connection refers
      to (None for NULL); `data` is the opaque owner pointer. */
  datatype ConnIo = ConnIo(
    sd: int, events: bv32, err: int, family: int, addrlen: nat,
    addr: Option<seq<byte>>, recvActive: bool, recvReady: bool,
    sendActive: bool, sendReady: bool, recvBytes: nat, sendBytes: nat,
    eof: bool, done: bool, connType: ConnType, data: Option<nat>)

  /** reset(): no descriptor, no error, the default family and address
      length, no address, every flag and counter cleared. The type and the
      data pointer are kept. */
  function ResetIo(c: ConnIo): (r: ConnIo)
    ensures r.sd == -1 && r.events == 0 && r.err == 0
    ensures r.family == AF_INET && r.addrlen == SockaddrSize && r.addr.None?
    ensures !r.recvActive && !r.recvReady && !r.sendActive && !r.sendReady
    ensures !r.eof && !r.done && r.recvBytes == 0 && r.sendBytes == 0
    ensures r.connType == c.connType && r.data == c.data
  {
    c.(sd := -1, events := 0, err := 0, family := AF_INET, addrlen := SockaddrSize,
       addr := None, recvActive := false, recvReady := false, sendActive := false,
       sendReady := false, eof := false, done := false, sendBytes := 0, recvBytes := 0)
  }

  /** Which wrapper is running: recv() reads, send() and sendv() write. */
  datatype Dir = Read | Write

  /** The first outcome that is not EINTR, if any. */
  function FirstNonEintr(outs: seq<Io>): (r: Option<Io>)
    ensures r.Some? ==> r.value in outs && r.value != Fail(EINTR)
  {
    if outs == [] then None
    else if outs[0] == Fail(EINTR) then FirstNonEintr(outs[1..])
    else Some(outs[0])
  }

  function Ready(c: ConnIo, d: Dir): bool {
    if d == Read then c.recvReady else c.sendReady
  }

  function Bytes(c: ConnIo, d: Dir): nat {
    if d == Read then c.recvBytes else c.sendBytes
  }

  function SetReady(c: ConnIo, d: Dir, b: bool): ConnIo {
    if d == Read then c.(recvReady := b) else c.(sendReady := b)
  }

  function AddBytes(c: ConnIo, d: Dir, n: nat): ConnIo {
    if d == Read then c.(recvBytes := U64(c.recvBytes + n)) else c.(sendBytes := U64(c.sendBytes + n))
  }

  /** Only the ready flags, the byte counters, eof and err differ: the
      descriptor, interest flags, type and owner are untouched. */
  predicate SameSocket(c: ConnIo, c': ConnIo) {
    c'.sd == c.sd && c'.recvActive == c.recvActive && c'.sendActive == c.sendActive &&
    c'.connType == c.connType && c'.data == c.data && c'.done == c.done &&
    c'.addr == c.addr && c'.family == c.family && c'.events == c.events
  }

  /** The loop shared by recv, send and sendv. The call moves at most
      `cap` bytes; a positive count below `limit` clears the ready flag.
      None means the outcomes ran out while retrying EINTR. */
  function Transfer(c: ConnIo, d: Dir, limit: nat, cap: nat, outs: seq<Io>): (r: Option<(int, ConnIo)>)
    ensures r.None? <==> FirstNonEintr(outs).None?
    ensures r.Some? ==> r.value == Settle(c, d, limit, cap, FirstNonEintr(outs).value)
    decreases |outs|
  {
    if outs == [] then None
    else if outs[0] == Fail(EINTR) then Transfer(c, d, limit, cap, outs[1..])
    else Some(Settle(c, d, limit, cap, outs[0]))
  }

  /** The call that is not retried: a count of bytes moved (at most
      `cap`), end of stream, or an error. */
  function Settle(c: ConnIo, d: Dir, limit: nat, cap: nat, o: Io): (r: (int, ConnIo))
    ensures SameSocket(c, r.1)
    ensures var (n, c') := r;
      match o
      case Count(k) =>
        n == Min(k, cap) &&
        (n > 0 ==> c' == SetReady(AddBytes(c, d, n), d, Ready(c, d) && n >= limit)) &&
        (n == 0 && d == Read ==> c' == c.(recvReady := false, eof := true)) &&
        (n == 0 && d == Write ==> c' == c.(sendReady := false))
      case Fail(e) =>
        (e == EAGAIN ==> n == EventAgain && c' == SetReady(c, d, false)) &&
        (e != EAGAIN ==> n == EventError && c' == SetReady(c, d, false).(err := e))
  {
    match o
    case Count(k) =>
      var n := Min(k, cap);
      if n > 0 then (n, Moved(c, d, limit, n))
      else if d == Read then (0, c.(recvReady := false, eof := true))
      else (0, c.(sendReady := false))
    case Fail(e) =>
      if e == EAGAIN then (EventAgain, SetReady(c, d, false))
      else (EventError, SetReady(c, d, false).(err := e))
  }

  /** `n` bytes moved: the counter grows by `n` in 64-bit arithmetic and
      a count below `limit` clears the ready flag. */
  function Moved(c: ConnIo, d: Dir, limit: nat, n: nat): (r: ConnIo)
    ensures SameSocket(c, r) && r.eof == c.eof && r.err == c.err
    ensures r == SetReady(AddBytes(c, d, n), d, Ready(c, d) && n >= limit)
  {
    var c1 := if n < limit then SetReady(c, d, false) else c;
    if d == Read then
      assert c1.recvReady == (c.recvReady && n >= limit);
      c1.(recvBytes := U64(c1.recvBytes + n))
    else
      assert c1.sendReady == (c.sendReady && n >= limit);
      c1.(sendBytes := U64(c1.sendBytes + n))
  }

  /** recv(buf, size). */
  function Recv(c: ConnIo, size: nat, outs: seq<Io>): (r: Option<(int, ConnIo)>)
    ensures r.Some? ==> r.value.0 <= size && r.value.0 >= EventAgain
    ensures r.Some? && r.value.0 > 0 ==>
      r.value.1.recvBytes == U64(c.recvBytes + r.value.0) &&
      (r.value.1.recvReady <==> c.recvReady && r.value.0 == size) &&
      r.value.1.eof == c.eof && r.value.1.err == c.err
    ensures r.Some? && r.value.0 == 0 ==>
      r.value.1.eof && !r.value.1.recvReady && r.value.1.recvBytes == c.recvBytes
    ensures r.Some? && r.value.0 < 0 ==> !r.value.1.recvReady && !(r.value.1.eof && !c.eof)
    ensures r.Some? && r.value.0 == EventAgain ==> r.value.1.err == c.err
  {
    Transfer(c, Read, size, size, outs)
  }

  /** send(buf, size): like recv, but a zero-byte write only clears
      send_ready and never sets eof. */
  function Send(c: ConnIo, size: nat, outs: seq<Io>): (r: Option<(int, ConnIo)>)
    ensures r.Some? ==> r.value.0 <= size && r.value.0 >= EventAgain && r.value.1.eof == c.eof
    ensures r.Some? && r.value.0 > 0 ==>
      r.value.1.sendBytes == U64(c.sendBytes + r.value.0) &&
      (r.value.1.sendReady <==> c.sendReady && r.value.0 == size)
    ensures r.Some? && r.value.0 <= 0 ==> !r.value.1.sendReady
  {
    Transfer(c, Write, size, size, outs)
  }

  /** sendv(iov, iovcnt) as written: writev moves up to `total` bytes, but
      the count is compared with the number of iovecs, so a partial write
      of at least `iovcnt` bytes leaves send_ready set. */
  function SendvAsWritten(c: ConnIo, iovcnt: nat, total: nat, outs: seq<Io>): (r: Option<(int, ConnIo)>)
    ensures r.Some? ==> r.value.0 <= total && r.value.1.eof == c.eof
    ensures r.Some? && r.value.0 > 0 ==>
      (r.value.1.sendReady <==> c.sendReady && r.value.0 >= iovcnt)
  {
    Transfer(c, Write, iovcnt, total, outs)
  }

  /** sendv with the comparison against the bytes offered: send_ready
      survives only a complete write. */
  function Sendv(c: ConnIo, total: nat, outs: seq<Io>): (r: Option<(int, ConnIo)>)
    ensures r.Some? ==> r.value.0 <= total && r.value.1.eof == c.eof
    ensures r.Some? && r.value.0 > 0 ==>
      r.value.1.sendBytes == U64(c.sendBytes + r.value.0) &&
      (r.value.1.sendReady <==> c.sendReady && r.value.0 == total)
  {
    Transfer(c, Write, total, total, outs)
  }

  /** A partial write of 50 of 100 bytes gathered from 2 iovecs: as written
      send_ready stays set, corrected it is cleared. */
  lemma SendvPartialWriteKeepsReady(c: ConnIo)
    requires c.sendReady
    ensures SendvAsWritten(c, 2, 100, [Count(50)]).value.1.sendReady
    ensures !Sendv(c, 100, [Count(50)]).value.1.sendReady
  {
  }

  /** EINTR outcomes in front change nothing: the call is retried. */
  lemma {:induction false} TransferRetriesEintr(c: ConnIo, d: Dir, limit: nat, cap: nat, k: nat, outs: seq<Io>)
    ensures Transfer(c, d, limit, cap, seq(k, _ => Fail(EINTR)) + outs) == Transfer(c, d, limit, cap, outs)
    decreases k
  {
    var s := seq(k, _ => Fail(EINTR)) + outs;
    if k == 0 {
      assert s == outs;
    } else {
      assert s[0] == Fail(EINTR);
      assert s[1..] == seq(k - 1, _ => Fail(EINTR)) + outs;
      assert Transfer(c, d, limit, cap, s) == Transfer(c, d, limit, cap, s[1..]);
      TransferRetriesEintr(c, d, limit, cap, k - 1, outs);
    }
  }
}
