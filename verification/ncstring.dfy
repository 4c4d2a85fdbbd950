/** NcString (nc_string.h): a length plus a heap copy of the bytes with a
    terminating NUL, and the pointer scanners `_nc_strchr` / `_nc_strrchr`.
    `data` is None for a NULL buffer; when present it holds the content
    followed by the NUL. A failed allocation is the input `ok == false`. */
module NcStr {
  import opened Common
  import Util

  datatype NcString = NcString(len: nat, data: Option<seq<byte>>)

  /** A well-formed string: `len` content bytes, no NUL among them, then a
      NUL. */
  predicate Valid(s: NcString) {
    s.data.Some? && |s.data.value| == s.len + 1 && s.data.value[s.len] == Nul &&
    NoNul(s.data.value[..s.len])
  }

  function Content(s: NcString): seq<byte>
    requires Valid(s)
  {
    s.data.value[..s.len]
  }

  /** NcString(): length 0 and a one-byte buffer holding NUL. */
  function EmptyString(): (r: NcString)
    ensures Valid(r) && r.len == 0 && Content(r) == []
  {
    NcString(0, Some([Nul]))
  }

  /** NcString(s, len): a NUL-terminated copy of s[0..len). When the copy
      cannot be allocated the length falls back to 0 with a NULL buffer. */
  function FromBytes(src: seq<byte>, len: nat, ok: bool): (r: NcString)
    requires len <= |src| && NoNul(src[..len])
    ensures ok ==> Valid(r) && r.len == len && Content(r) == src[..len]
    ensures !ok ==> r == NcString(0, None)
  {
    if ok then NcString(len, Some(src[..len] + [Nul])) else NcString(0, None)
  }

  /** Copy construction: a duplicate of the source; if the duplicate cannot
      be allocated the length is never set, so it is whatever `junk` held. */
  function CopyOf(s: NcString, ok: bool, junk: nat): (r: NcString)
    requires Valid(s)
    ensures ok ==> Valid(r) && r.len == s.len && Content(r) == Content(s)
    ensures !ok ==> r.data.None?
  {
    if ok then NcString(s.len, Some(Content(s) + [Nul])) else NcString(junk, None)
  }

  /** operator=(NcString): self-assignment returns the target unchanged;
      otherwise the target becomes a copy of `s`, or, when the copy cannot
      be allocated, keeps its length with a NULL buffer. */
  function Assign(t: NcString, s: NcString, self: bool, ok: bool): (r: NcString)
    requires Valid(s)
    requires self ==> t == s
    ensures self ==> r == t
    ensures !self && ok ==> Valid(r) && r.len == s.len && Content(r) == Content(s)
    ensures !self && !ok ==> r == NcString(t.len, None)
  {
    if self then t
    else if ok then NcString(s.len, Some(Content(s) + [Nul]))
    else NcString(t.len, None)
  }

  /** A copy is equal to its source, field for field. */
  lemma CopyPreserves(s: NcString)
    requires Valid(s)
    ensures CopyOf(s, true, 0) == s
    ensures Assign(EmptyString(), s, false, true) == s
  {
    assert Content(s) + [Nul] == s.data.value;
  }

  /** The sign of strncmp over equally long byte strings: the first
      differing byte decides. */
  function Strncmp(a: seq<byte>, b: seq<byte>): (r: int)
    requires |a| == |b|
    ensures r == 0 || r == 1 || r == -1
    ensures r == 0 <==> a == b
  {
    if a == [] then 0
    else if a[0] < b[0] then -1
    else if a[0] > b[0] then 1
    else
      var t := Strncmp(a[1..], b[1..]);
      assert a == [a[0]] + a[1..] && b == [b[0]] + b[1..];
      t
  }

  /** compare(): strings of different lengths are ordered by length alone;
      equal lengths by byte comparison (only the sign is modelled). */
  function Compare(a: NcString, b: NcString): (r: int)
    requires Valid(a) && Valid(b)
    ensures a.len > b.len ==> r == 1
    ensures a.len < b.len ==> r == -1
    ensures r == 0 <==> Content(a) == Content(b)
  {
    if a.len != b.len then (if a.len > b.len then 1 else -1)
    else Strncmp(Content(a), Content(b))
  }

  lemma {:induction false} StrncmpAntisymmetric(a: seq<byte>, b: seq<byte>)
    requires |a| == |b|
    ensures Strncmp(a, b) == -Strncmp(b, a)
  {
    if a != [] && a[0] == b[0] {
      StrncmpAntisymmetric(a[1..], b[1..]);
    }
  }

  /** compare() is antisymmetric. */
  lemma CompareAntisymmetric(a: NcString, b: NcString)
    requires Valid(a) && Valid(b)
    ensures Compare(a, b) == -Compare(b, a)
  {
    if a.len == b.len {
      StrncmpAntisymmetric(Content(a), Content(b));
    }
  }

  /** operator==(NcString): false whenever this string is empty, otherwise
      strcmp of the two buffers, which compares up to the first NUL. */
  function Equals(a: NcString, b: NcString): (r: bool)
    requires a.len > 0 ==> a.data.Some? && b.data.Some?
    ensures a.len == 0 ==> !r
    ensures a.len > 0 ==> (r <==> Util.UpToNul(a.data.value) == Util.UpToNul(b.data.value))
  {
    if a.len <= 0 then false
    else Util.UpToNul(a.data.value) == Util.UpToNul(b.data.value)
  }

  /** operator==(bytes): also false against a NULL pointer. */
  function EqualsBytes(a: NcString, s: Option<seq<byte>>): (r: bool)
    requires a.len > 0 ==> a.data.Some?
    ensures a.len == 0 || s.None? ==> !r
    ensures a.len > 0 && s.Some? ==> (r <==> Util.UpToNul(a.data.value) == Util.UpToNul(s.value))
  {
    if a.len <= 0 || s.None? then false
    else Util.UpToNul(a.data.value) == Util.UpToNul(s.value)
  }

  /** On well-formed strings == is content equality, except that an empty
      left side is never equal, not even to another empty string. */
  lemma EqualsIsContentEquality(a: NcString, b: NcString)
    requires Valid(a) && Valid(b)
    ensures Equals(a, b) <==> a.len > 0 && Content(a) == Content(b)
    ensures !Equals(EmptyString(), EmptyString())
  {
    Util.UpToNulOfTerminated(Content(a), []);
    Util.UpToNulOfTerminated(Content(b), []);
    assert Content(a) + [Nul] + [] == a.data.value;
    assert Content(b) + [Nul] + [] == b.data.value;
  }

  /** Where the `_nc_strchr` loop leaves its pointer, started at `q`: it
      stops on a NUL or at `last` without advancing, and on a match one past
      the match. */
  function StrChrScan(buf: seq<byte>, q: nat, last: nat, c: byte): (e: nat)
    requires last < |buf| && q < |buf|
    ensures q <= e
    ensures q <= last ==> e <= last
    decreases |buf| - q
  {
    if buf[q] == Nul || q >= last then q
    else if buf[q] == c then q + 1
    else StrChrScan(buf, q + 1, last, c)
  }

  /** `_nc_strchr(p, last, c)`: NULL when the loop ended at or past `last`,
      otherwise the position one before where it ended. */
  function StrChr(buf: seq<byte>, p: nat, last: nat, c: byte): (r: Option<int>)
    requires last < |buf| && p < |buf|
    ensures r.Some? ==> p - 1 <= r.value < last - 1
  {
    var e := StrChrScan(buf, p, last, c);
    if e >= last then None else Some(e - 1)
  }

  /** Index of the first `c` in buf[q..last), or `last` if there is none. */
  function FirstIndex(buf: seq<byte>, q: nat, last: nat, c: byte): (i: nat)
    requires q <= last <= |buf|
    ensures q <= i <= last
    ensures i < last ==> buf[i] == c
    ensures forall j :: q <= j < i ==> buf[j] != c
    decreases last - q
  {
    if q == last then last else if buf[q] == c then q else FirstIndex(buf, q + 1, last, c)
  }

  lemma {:induction false} StrChrScanNoNul(buf: seq<byte>, q: nat, last: nat, c: byte)
    requires q <= last < |buf|
    requires forall j :: q <= j < last ==> buf[j] != Nul
    ensures var i := FirstIndex(buf, q, last, c);
      StrChrScan(buf, q, last, c) == if i < last then i + 1 else last
    decreases last - q
  {
    if q < last && buf[q] != c {
      StrChrScanNoNul(buf, q + 1, last, c);
    }
  }

  /** With no NUL in [p, last), `_nc_strchr` finds the first `c` only when
      it lies before last - 1: a match at last - 1 is reported as NULL. */
  lemma StrChrFindsFirst(buf: seq<byte>, p: nat, last: nat, c: byte)
    requires p <= last < |buf|
    requires forall j :: p <= j < last ==> buf[j] != Nul
    ensures var i := FirstIndex(buf, p, last, c);
      (i + 1 < last ==> StrChr(buf, p, last, c) == Some(i)) &&
      (i + 1 >= last ==> StrChr(buf, p, last, c).None?)
  {
    StrChrScanNoNul(buf, p, last, c);
  }

  /** Where the `_nc_strrchr` loop leaves its pointer, started at `q` and
      walking down: it stops on a NUL without moving, below `start`, or one
      below a match. The source also reads the byte just below `start`
      before testing the bound; whatever that byte is the loop stops there,
      so the model stops as soon as `q < start`. */
  function StrRChrScan(buf: seq<byte>, q: int, start: nat, c: byte): (e: int)
    requires start - 1 <= q < |buf|
    ensures start - 1 <= e <= q
    decreases q - start + 1
  {
    if q < start then q
    else if buf[q] == Nul then q
    else if buf[q] == c then q - 1
    else StrRChrScan(buf, q - 1, start, c)
  }

  /** `_nc_strrchr(p, start, c)`: NULL when the loop ended below `start`,
      otherwise one above where it ended. */
  function StrRChr(buf: seq<byte>, p: int, start: nat, c: byte): (r: Option<int>)
    requires start - 1 <= p < |buf|
    ensures r.Some? ==> start < r.value <= p + 1
    ensures r.Some? ==> buf[r.value - 1] == Nul || (r.value <= p && buf[r.value] == c)
  {
    StrRChrScanStops(buf, p, start, c);
    var e := StrRChrScan(buf, p, start, c);
    if e < start then None else Some(e + 1)
  }

  /** The backwards scan ends on a NUL or one below a match, unless it
      ran below `start`. */
  lemma {:induction false} StrRChrScanStops(buf: seq<byte>, q: int, start: nat, c: byte)
    requires start - 1 <= q < |buf|
    ensures var e := StrRChrScan(buf, q, start, c);
      e >= start ==> buf[e] == Nul || (e < q && buf[e + 1] == c)
    decreases q - start + 1
  {
    if q >= start && buf[q] != Nul && buf[q] != c {
      StrRChrScanStops(buf, q - 1, start, c);
    }
  }

  /** Index of the last `c` in buf[start..q], or start - 1 if none. */
  function LastIndex(buf: seq<byte>, q: int, start: nat, c: byte): (i: int)
    requires start - 1 <= q < |buf|
    ensures start - 1 <= i <= q
    ensures i >= start ==> buf[i] == c
    ensures forall j :: i < j <= q ==> buf[j] != c
    decreases q - start + 1
  {
    if q < start then q else if buf[q] == c then q else LastIndex(buf, q - 1, start, c)
  }

  lemma {:induction false} StrRChrScanNoNul(buf: seq<byte>, q: int, start: nat, c: byte)
    requires start - 1 <= q < |buf|
    requires forall j :: start <= j <= q ==> buf[j] != Nul
    ensures var i := LastIndex(buf, q, start, c);
      StrRChrScan(buf, q, start, c) == if i >= start then i - 1 else start - 1
    decreases q - start + 1
  {
    if q >= start && buf[q] != c {
      StrRChrScanNoNul(buf, q - 1, start, c);
    }
  }

  /** With no NUL in [start, p], `_nc_strrchr` finds the last `c` only when
      it lies above `start`: a match at `start` itself is reported as NULL. */
  lemma StrRChrFindsLast(buf: seq<byte>, p: int, start: nat, c: byte)
    requires start - 1 <= p < |buf|
    requires forall j :: start <= j <= p ==> buf[j] != Nul
    ensures var i := LastIndex(buf, p, start, c);
      (i > start ==> StrRChr(buf, p, start, c) == Some(i)) &&
      (i <= start ==> StrRChr(buf, p, start, c).None?)
  {
    StrRChrScanNoNul(buf, p, start, c);
  }

  /** The listen value "127.0.0.1:22121" split at its last ':' from the
      final byte down: the colon at index 9 is found. */
  lemma StrRChrListenSample()
    ensures var v: seq<byte> := [49, 50, 55, 46, 48, 46, 48, 46, 49, 58, 50, 50, 49, 50, 49, 0];
      StrRChr(v, 14, 0, 58) == Some(9)
  {
    var v: seq<byte> := [49, 50, 55, 46, 48, 46, 48, 46, 49, 58, 50, 50, 49, 50, 49, 0];
    assert StrRChrScan(v, 9, 0, 58) == 8;
    assert StrRChrScan(v, 11, 0, 58) == 8;
    assert StrRChrScan(v, 14, 0, 58) == 8;
  }
}
