/** The helpers of nc_util.h and nc_util.cpp: port validation, alignment,
    the process-wide id and connection counters, the chunk-size setting,
    the unix-socket branch of name resolution, decimal parsing, the
    formatter clamp and the blocking send/receive loops. Static counters
    become explicit state passed in and returned; system calls become
    sequences of their outcomes. */
module Util {
  import opened Common

  const UInt16Max: int := 65535

  /** ncValidPort: a port is valid iff it lies in [1, UINT16_MAX]. */
  function ValidPort(n: int): (r: bool)
    ensures r <==> 1 <= n < Two16
  {
    !(n < 1 || n > UInt16Max)
  }

  /** The MIN and MAX macros. */
  function Min(a: int, b: int): (r: int)
    ensures r <= a && r <= b && (r == a || r == b)
  {
    if a < b then a else b
  }

  function Max(a: int, b: int): (r: int)
    ensures r >= a && r >= b && (r == a || r == b)
  {
    if a > b then a else b
  }

  ghost predicate PowerOfTwo(n: nat) {
    n == 1 || (n > 1 && n % 2 == 0 && PowerOfTwo(n / 2))
  }

  /** A multiple of `n` plus a remainder below `n` has that remainder. */
  lemma DivModUnique(a: int, q: int, rem: int, n: int)
    requires n > 0 && 0 <= rem < n && a == q * n + rem
    ensures a % n == rem && a / n == q
  {
    var q', r' := a / n, a % n;
    assert (q - q') * n == r' - rem;
    if q > q' {
      ProductAtLeast(q - q', n);
      assert false;
    } else if q < q' {
      ProductAtLeast(q' - q, n);
      assert false;
    }
  }

  lemma ProductAtLeast(k: int, n: int)
    requires k >= 1 && n > 0
    ensures k * n >= n
  {
    assert (k - 1) * n >= 0;
  }

  /** Two multiples of `n` closer than `n` are equal. */
  lemma MultiplesApart(a: int, b: int, n: int)
    requires n > 0 && a < b < a + n
    ensures (b - a) % n != 0
  {
    DivModUnique(b - a, 0, b - a, n);
  }

  /** NC_ALIGN(d, n): `d + n - 1` with its low bits cleared. For a power of
      two `n` clearing the bits below `n` is subtracting the remainder
      modulo `n`. */
  function Align(d: nat, n: nat): (r: nat)
    requires PowerOfTwo(n)
    ensures r % n == 0 && d <= r < d + n
  {
    AlignBounds(d + n - 1, n);
    (d + n - 1) - (d + n - 1) % n
  }

  /** Subtracting the remainder leaves a multiple of `n` within `n` below. */
  lemma AlignBounds(x: nat, n: nat)
    requires n > 0
    ensures (x - x % n) % n == 0 && x - n < x - x % n <= x
  {
    var q := x / n;
    var rem := x % n;
    assert 0 <= rem < n;
    assert x == q * n + rem;
    assert x - rem == q * n;
    DivModUnique(x - rem, q, 0, n);
  }

  /** The aligned value is the least multiple of `n` that is at least `d`. */
  lemma AlignIsLeast(d: nat, n: nat, m: nat)
    requires PowerOfTwo(n) && m % n == 0 && m >= d
    ensures Align(d, n) <= m
  {
    var r := Align(d, n);
    if m < r {
      MultiplesApart(m, r, n);
      DivModUnique(r - m, r / n - m / n, 0, n);
      assert false;
    }
  }

  /** The static counter behind uniqNextId, which starts at 1. */
  datatype IdGen = IdGen(next: nat)

  function InitialIdGen(): (g: IdGen)
    ensures g.next == 1
  {
    IdGen(1)
  }

  /** uniqNextId: returns the counter and increments it. */
  function NextId(g: IdGen): (r: (nat, IdGen))
    ensures r.0 == g.next && r.1.next > r.0
  {
    (g.next, IdGen(g.next + 1))
  }

  /** The first `k` ids handed out from `g`. */
  function DrawIds(g: IdGen, k: nat): (r: seq<nat>)
    ensures |r| == k
    decreases k
  {
    if k == 0 then [] else [NextId(g).0] + DrawIds(NextId(g).1, k - 1)
  }

  /** Ids come out as g.next, g.next + 1, ...: strictly increasing, and a
      fresh generator gives 1, 2, 3, .... */
  lemma {:induction false} DrawIdsIncrease(g: IdGen, k: nat)
    ensures forall i :: 0 <= i < k ==> DrawIds(g, k)[i] == g.next + i
    ensures forall i, j :: 0 <= i < j < k ==> DrawIds(g, k)[i] < DrawIds(g, k)[j]
    decreases k
  {
    if k > 0 {
      DrawIdsIncrease(NextId(g).1, k - 1);
      var r := DrawIds(g, k);
      assert r == [g.next] + DrawIds(IdGen(g.next + 1), k - 1);
      forall i | 0 <= i < k ensures r[i] == g.next + i {
        if i > 0 {
          assert r[i] == DrawIds(IdGen(g.next + 1), k - 1)[i - 1];
        }
      }
    }
  }

  /** The static counters of ncTotalConn (uint64), ncCurConn and ncCurCConn
      (both uint32). */
  datatype Counters = Counters(total: nat, current: nat, currentClient: nat)

  function InitialCounters(): (c: Counters)
    ensures c.total == 0 && c.current == 0 && c.currentClient == 0
  {
    Counters(0, 0, 0)
  }

  /** ncTotalConn(incr): adds `incr` in 64-bit arithmetic and returns the
      running total. */
  function TotalConn(c: Counters, incr: int): (r: (Counters, nat))
    ensures r.1 == r.0.total < Two64 && (r.1 - (c.total + incr)) % Two64 == 0
    ensures r.0.current == c.current && r.0.currentClient == c.currentClient
  {
    var t := U64(c.total + incr);
    (c.(total := t), t)
  }

  /** ncCurConn(incr): the same over a 32-bit counter. */
  function CurConn(c: Counters, incr: int): (r: (Counters, nat))
    ensures r.1 == r.0.current < Two32 && (r.1 - (c.current + incr)) % Two32 == 0
    ensures r.0.total == c.total && r.0.currentClient == c.currentClient
  {
    var t := U32(c.current + incr);
    (c.(current := t), t)
  }

  /** ncCurCConn(incr): the client-connection counter. */
  function CurCConn(c: Counters, incr: int): (r: (Counters, nat))
    ensures r.1 == r.0.currentClient < Two32 && (r.1 - (c.currentClient + incr)) % Two32 == 0
    ensures r.0.total == c.total && r.0.current == c.current
  {
    var t := U32(c.currentClient + incr);
    (c.(currentClient := t), t)
  }

  /** Counting a connection in and out again restores the counter, even
      across the 32-bit wrap. */
  lemma CurConnRoundTrip(c: Counters, incr: int)
    requires c.current < Two32
    ensures CurConn(CurConn(c, incr).0, -incr).0 == c
  {
    var x := c.current + incr;
    var q := x / Two32;
    assert x == q * Two32 + x % Two32;
    DivModUnique(U32(x) - incr, -q, c.current, Two32);
  }

  /** The static chunk size behind ncMbufChunkSize; 10240 until set. */
  const DefaultChunkSize: nat := 10240

  /** ncMbufChunkSize(n): a positive `n` replaces the stored size; the
      stored size is returned either way. */
  function MbufChunkSize(size: nat, n: nat): (r: (nat, nat))
    requires n < Two32
    ensures n > 0 ==> r.0 == n
    ensures n == 0 ==> r.0 == size
    ensures r.1 == r.0
  {
    var s := if n > 0 then n else size;
    (s, s)
  }

  /** Setting a size and then querying with 0 returns that size. */
  lemma MbufChunkSizeSetThenGet(size: nat, n: nat)
    requires 0 < n < Two32
    ensures MbufChunkSize(MbufChunkSize(size, n).0, 0).1 == n
  {
  }

  /** sizeof(struct sockaddr_un) and its sun_path capacity on Linux. */
  const SockaddrUnSize: nat := 110
  const UnixAddrStrLen: nat := 108

  /** struct sockinfo: the family, the address length and the address bytes
      (for AF_UNIX, the path as stored in sun_path). */
  datatype SockInfo = SockInfo(family: int, addrlen: nat, addr: seq<byte>)

  /** ncResolve. `name` is None for a NULL name. A name starting with '/'
      is a unix path: one too long for sun_path fails, otherwise the path is
      copied with a terminating NUL. Any other name is looked up with
      getaddrinfo, whose outcome is the input `lookup`: the first address
      found, or None when the lookup failed or found nothing. On failure
      `si` is left as it was. */
  function Resolve(name: Option<seq<byte>>, si: SockInfo, lookup: Option<SockInfo>): (r: (int, SockInfo))
    ensures r.0 == 0 || r.0 == -1
    ensures r.0 == -1 ==> r.1 == si
    ensures (name.None? || name.value == []) ==> r.0 == -1
    ensures name.Some? && name.value != [] && name.value[0] == '/' as byte ==>
      (r.0 == 0 <==> |name.value| < UnixAddrStrLen) &&
      (r.0 == 0 ==> r.1 == SockInfo(AF_UNIX, SockaddrUnSize, name.value + [Nul]))
    ensures name.Some? && name.value != [] && name.value[0] != '/' as byte ==>
      (r.0 == 0 <==> lookup.Some?) && (r.0 == 0 ==> r.1 == lookup.value)
  {
    if name.None? || |name.value| <= 0 then (-1, si)
    else if name.value[0] == '/' as byte then
      if |name.value| >= UnixAddrStrLen then (-1, si)
      else (0, si.(family := AF_UNIX, addrlen := SockaddrUnSize, addr := name.value + [Nul]))
    else
      match lookup
      case None => (-1, si)
      case Some(a) => (0, a)
  }

  /** The bytes of a C string up to (not including) its first NUL. */
  function UpToNul(s: seq<byte>): (r: seq<byte>)
    ensures |r| <= |s| && r == s[..|r|] && NoNul(r)
    ensures |r| < |s| ==> s[|r|] == Nul
  {
    if s == [] || s[0] == Nul then [] else [s[0]] + UpToNul(s[1..])
  }

  lemma {:induction false} UpToNulOfTerminated(p: seq<byte>, rest: seq<byte>)
    requires NoNul(p)
    ensures UpToNul(p + [Nul] + rest) == p
  {
    if p != [] {
      assert (p + [Nul] + rest)[1..] == p[1..] + [Nul] + rest;
      UpToNulOfTerminated(p[1..], rest);
    }
  }

  /** Reading a resolved unix address back as a C string gives the path
      that was resolved, when the path holds no NUL. */
  lemma ResolveUnixRoundTrip(path: seq<byte>, si: SockInfo, lookup: Option<SockInfo>)
    requires path != [] && path[0] == '/' as byte && |path| < UnixAddrStrLen && NoNul(path)
    ensures var r := Resolve(Some(path), si, lookup);
      r.0 == 0 && r.1.family == AF_UNIX && UpToNul(r.1.addr) == path
  {
    UpToNulOfTerminated(path, []);
    assert path + [Nul] + [] == path + [Nul];
  }

  predicate IsDigit(b: byte) { '0' as byte <= b <= '9' as byte }

  predicate AllDigits(s: seq<byte>) {
    forall i :: 0 <= i < |s| ==> IsDigit(s[i])
  }

  function DigitValue(b: byte): nat
    requires IsDigit(b)
  {
    (b - '0' as byte) as nat
  }

  /** The decimal number a digit string denotes, in unbounded arithmetic. */
  function DecimalValue(s: seq<byte>): nat
    requires AllDigits(s)
  {
    if s == [] then 0 else DecimalValue(s[..|s| - 1]) * 10 + DigitValue(s[|s| - 1])
  }

  /** The accumulator of _nc_atoi after reading the digits `s`: value*10 +
      digit in the signed 32-bit `int` of the source, modelled with
      two's-complement wrap-around. */
  function Accumulate(s: seq<byte>): (v: int)
    requires AllDigits(s)
    ensures -Two31 <= v < Two31
  {
    if s == [] then 0 else I32(Accumulate(s[..|s| - 1]) * 10 + DigitValue(s[|s| - 1]))
  }

  /** _nc_atoi: -1 for an empty input, for any byte that is not a decimal
      digit, and for an accumulated value that came out negative. */
  function Atoi(line: seq<byte>): (r: int)
    ensures r >= -1
    ensures line == [] || !AllDigits(line) ==> r == -1
    ensures AllDigits(line) && line != [] ==> (r == -1 <==> Accumulate(line) < 0)
    ensures AllDigits(line) && line != [] && r != -1 ==> r == Accumulate(line)
  {
    if |line| == 0 then -1
    else if !AllDigits(line) then -1
    else
      var v := Accumulate(line);
      if v < 0 then -1 else v
  }

  lemma {:induction false} AccumulateExact(s: seq<byte>)
    requires AllDigits(s) && DecimalValue(s) < Two31
    ensures Accumulate(s) == DecimalValue(s)
  {
    if s != [] {
      var p := s[..|s| - 1];
      assert AllDigits(p);
      assert DecimalValue(p) <= DecimalValue(s);
      AccumulateExact(p);
    }
  }

  /** A digit string whose value fits in `int` is converted exactly. */
  lemma AtoiExact(line: seq<byte>)
    requires line != [] && AllDigits(line) && DecimalValue(line) < Two31
    ensures Atoi(line) == DecimalValue(line)
  {
    AccumulateExact(line);
  }

  lemma DecimalSnoc(p: seq<byte>, b: byte)
    requires AllDigits(p) && IsDigit(b)
    ensures AllDigits(p + [b])
    ensures DecimalValue(p + [b]) == DecimalValue(p) * 10 + DigitValue(b)
    ensures Accumulate(p + [b]) == I32(Accumulate(p) * 10 + DigitValue(b))
  {
    assert (p + [b])[..|p|] == p;
  }

  /** With wrap-around, a value past the `int` range can come back
      non-negative: "4294967297" converts to 1. */
  lemma AtoiWrapsAround()
    ensures var s: seq<byte> := [52, 50, 57, 52, 57, 54, 55, 50, 57, 55];
      AllDigits(s) && DecimalValue(s) == Two32 + 1 && Atoi(s) == 1
  {
    var s1: seq<byte> := [52];
    var s2 := s1 + [50];
    var s3 := s2 + [57];
    var s4 := s3 + [52];
    var s5 := s4 + [57];
    var s6 := s5 + [54];
    var s7 := s6 + [55];
    var s8 := s7 + [50];
    var s9 := s8 + [57];
    var s := s9 + [55];
    assert s == [52, 50, 57, 52, 57, 54, 55, 50, 57, 55];
    assert AllDigits(s1) && DecimalValue(s1) == 4 by {
      assert s1 == [] + [52];
      DecimalSnoc([], 52);
    }
    DecimalSnoc(s1, 50);
    DecimalSnoc(s2, 57);
    DecimalSnoc(s3, 52);
    DecimalSnoc(s4, 57);
    DecimalSnoc(s5, 54);
    DecimalSnoc(s6, 55);
    DecimalSnoc(s7, 50);
    DecimalSnoc(s8, 57);
    assert DecimalValue(s9) == 429496729;
    AccumulateExact(s9);
    DecimalSnoc(s9, 55);
    assert Accumulate(s) == I32(4294967297);
    assert 4294967297 % Two32 == 1;
    assert I32(4294967297) == 1;
    assert Atoi(s) == Accumulate(s);
  }

  /** _vscnprintf: `n` is what vsnprintf reported for a buffer of `size`
      bytes. A non-positive report gives 0, a report that fits gives `n`,
      and otherwise the result is `(int)(size - 1)` computed in size_t. */
  function Vscnprintf(n: int, size: nat): (r: int)
    requires size < Two64
    ensures n <= 0 ==> r == 0
    ensures 0 < n < I32(size) ==> r == n
    ensures n > 0 && n >= I32(size) ==> r == I32(U64(size - 1))
  {
    if n <= 0 then 0
    else if n < I32(size) then n
    else I32(U64(size - 1))
  }

  /** For a buffer size that fits in `int`, the result never exceeds the
      bytes actually written: it lies in [0, size). A zero-sized buffer with
      a positive report gives -1. */
  lemma VscnprintfBound(n: int, size: nat)
    requires 0 < size < Two31
    ensures 0 <= Vscnprintf(n, size) < size
    ensures n > 0 ==> Vscnprintf(n, 0) == -1
  {
  }

  /** The outcome of one send() or recv() call: a byte count, or -1 with
      the errno value. */
  datatype Io = Count(k: nat) | Fail(errno: int)

  /** _nc_sendn. `outs` are the outcomes of the successive send() calls;
      None means the loop would still be running when they run out. A call
      never transfers more than asked, so counts are capped at what is
      left. EINTR retries; another error returns -1; a zero-byte send
      returns -1; once nothing is left the result is `n`. */
  function Sendn(n: nat, nleft: nat, outs: seq<Io>): (r: Option<int>)
    requires nleft <= n
    ensures r.Some? ==> r.value == n || r.value == -1
    decreases |outs|
  {
    if nleft == 0 then Some(n)
    else if outs == [] then None
    else match outs[0]
      case Fail(e) => if e == EINTR then Sendn(n, nleft, outs[1..]) else Some(-1)
      case Count(k) =>
        if k == 0 then Some(-1) else Sendn(n, nleft - Min(k, nleft), outs[1..])
  }

  function Sum(outs: seq<Io>): nat {
    if outs == [] then 0 else (if outs[0].Count? then outs[0].k else 0) + Sum(outs[1..])
  }

  predicate AllWrites(outs: seq<Io>) {
    forall i :: 0 <= i < |outs| ==> outs[i].Count? && outs[i].k > 0
  }

  /** Sends that each transfer something and together cover what is left
      complete the call with `n`. */
  lemma {:induction false} SendnCompletes(n: nat, nleft: nat, outs: seq<Io>)
    requires nleft <= n && AllWrites(outs) && Sum(outs) >= nleft
    ensures Sendn(n, nleft, outs) == Some(n)
    decreases |outs|
  {
    if nleft > 0 {
      assert outs != [];
      assert AllWrites(outs[1..]);
      SendnCompletes(n, nleft - Min(outs[0].k, nleft), outs[1..]);
    }
  }

  /** Interrupted calls in front change nothing. */
  lemma {:induction false} SendnRetriesEintr(n: nat, nleft: nat, k: nat, outs: seq<Io>)
    requires 0 < nleft <= n
    ensures Sendn(n, nleft, seq(k, _ => Fail(EINTR)) + outs) == Sendn(n, nleft, outs)
  {
    if k > 0 {
      var p := seq(k, _ => Fail(EINTR)) + outs;
      assert p[0] == Fail(EINTR);
      assert p[1..] == seq(k - 1, _ => Fail(EINTR)) + outs;
      SendnRetriesEintr(n, nleft, k - 1, outs);
    } else {
      assert seq(k, _ => Fail(EINTR)) + outs == outs;
    }
  }

  /** _nc_recvn: as _nc_sendn, but a zero-byte recv (end of file) ends the
      loop and the bytes received so far, `n - nleft`, are returned. */
  function Recvn(n: nat, nleft: nat, outs: seq<Io>): (r: Option<int>)
    requires nleft <= n
    ensures r.Some? ==> r.value == -1 || n - nleft <= r.value <= n
    decreases |outs|
  {
    if nleft == 0 then Some(n - nleft)
    else if outs == [] then None
    else match outs[0]
      case Fail(e) => if e == EINTR then Recvn(n, nleft, outs[1..]) else Some(-1)
      case Count(k) =>
        if k == 0 then Some(n - nleft) else Recvn(n, nleft - Min(k, nleft), outs[1..])
  }

  /** The bytes received before end of file are exactly what is returned
      (capped at `n`). */
  lemma {:induction false} RecvnCountsReads(n: nat, got: seq<Io>, rest: seq<Io>)
    requires AllWrites(got) && Sum(got) < n
    ensures Recvn(n, n, got + [Count(0)] + rest) == Some(Sum(got))
    decreases |got|
  {
    RecvnCountsFrom(n, n, got, rest);
  }

  lemma {:induction false} RecvnCountsFrom(n: nat, nleft: nat, got: seq<Io>, rest: seq<Io>)
    requires nleft <= n && AllWrites(got) && Sum(got) < nleft
    ensures Recvn(n, nleft, got + [Count(0)] + rest) == Some(n - nleft + Sum(got))
    decreases |got|
  {
    var outs := got + [Count(0)] + rest;
    if got == [] {
      assert outs[0] == Count(0);
    } else {
      assert outs[0] == got[0];
      assert outs[1..] == got[1..] + [Count(0)] + rest;
      assert AllWrites(got[1..]);
      assert Min(got[0].k, nleft) == got[0].k;
      RecvnCountsFrom(n, nleft - got[0].k, got[1..], rest);
    }
  }
}
