/** The logger of nc_log.cpp: level clamping, the level filter, log-file
    selection and the two string scanners used to trim source-file paths
    in log lines. The scanners read a C string; `None` is a NULL pointer
    and the scan stops at the first NUL byte or at the end of the
    sequence, whichever comes first. */
module Log {
  import opened Common
  import opened Util

  /** LLOG_EMERG and LLOG_PVERB, the least and greatest levels. */
  const LogEmerg: int := 0
  const LogPverb: int := 11

  const StdoutFd: int := 1
  const StderrFd: int := 2

  /** The singleton logger: its level, its descriptor and the file name it
      was opened with (None when logging to stderr). */
  datatype Logger = Logger(level: int, fd: int, name: Option<seq<byte>>)

  /** A logger as constructed: descriptor 1 at the most verbose level. */
  function NewLogger(): (l: Logger)
    ensures l.fd == StdoutFd && l.level == LogPverb
  {
    Logger(LogPverb, StdoutFd, None)
  }

  /** MAX(LLOG_EMERG, MIN(level, LLOG_PVERB)). */
  function ClampLevel(level: int): (r: int)
    ensures LogEmerg <= r <= LogPverb
    ensures LogEmerg <= level <= LogPverb ==> r == level
    ensures level < LogEmerg ==> r == LogEmerg
    ensures level > LogPverb ==> r == LogPverb
  {
    Max(LogEmerg, Min(level, LogPverb))
  }

  /** setLevel: only the level changes, and it is clamped. */
  function SetLevel(l: Logger, level: int): (r: Logger)
    ensures r.level == ClampLevel(level) && r.fd == l.fd && r.name == l.name
  {
    l.(level := ClampLevel(level))
  }

  /** init(level, name). A NULL or empty name selects stderr. Otherwise the
      file is opened; `openFd` is the descriptor open() returned, and a
      negative one makes init fail with -1 (the logger keeps the name and
      the bad descriptor). */
  function Init(l: Logger, level: int, name: Option<seq<byte>>, openFd: int): (r: (Logger, int))
    ensures r.0.level == ClampLevel(level)
    ensures (name.None? || UpToNul(name.value) == []) ==>
              r.0.fd == StderrFd && r.0.name.None? && r.1 == 0
    ensures (name.Some? && UpToNul(name.value) != []) ==>
              r.0.fd == openFd && r.0.name == Some(UpToNul(name.value)) &&
              (r.1 == 0 <==> openFd >= 0) && (r.1 == 0 || r.1 == -1)
  {
    var lv := ClampLevel(level);
    if name.None? || UpToNul(name.value) == [] then
      (Logger(lv, StderrFd, None), 0)
    else
      (Logger(lv, openFd, Some(UpToNul(name.value))), if openFd < 0 then -1 else 0)
  }

  /** logAble: 1 when a message of `level` passes the logger's level. */
  function LogAble(l: Logger, level: int): (r: int)
    ensures r == 0 || r == 1
    ensures r == 1 <==> level <= l.level
  {
    if level > l.level then 0 else 1
  }

  /** After setLevel(v), exactly the levels up to the clamped v are
      logged. */
  lemma SetLevelThenLogAble(l: Logger, v: int, level: int)
    ensures LogAble(SetLevel(l, v), level) == 1 <==> level <= ClampLevel(v)
  {
  }

  /** The number of bytes before the first NUL or `c` from index `i` on. */
  function IndexScan(s: seq<byte>, i: nat, c: byte): (r: nat)
    requires i <= |s|
    ensures i <= r <= |s|
    ensures forall k :: i <= k < r ==> s[k] != Nul && s[k] != c
    ensures r < |s| ==> s[r] == Nul || s[r] == c
    decreases |s| - i
  {
    if i == |s| || s[i] == Nul || s[i] == c then i else IndexScan(s, i + 1, c)
  }

  /** stringIndexOf: -1 for a NULL or empty string; otherwise the index of
      the first `c`, or the string's length when `c` does not occur. */
  function StringIndexOf(s: Option<seq<byte>>, c: byte): (r: int)
    ensures (s.None? || UpToNul(s.value) == []) ==> r == -1
    ensures s.Some? && UpToNul(s.value) != [] ==>
              0 <= r <= |UpToNul(s.value)| &&
              (r < |UpToNul(s.value)| ==> UpToNul(s.value)[r] == c) &&
              (forall k :: 0 <= k < r ==> UpToNul(s.value)[k] != c)
  {
    if s.None? || s.value == [] || s.value[0] == Nul then -1
    else IndexScan(s.value, 0, c)
  }

  /** The position of the last `c` in [i, NUL) when it lies after `last`
      (or is at least `last`), else `last`. */
  function LastScan(s: seq<byte>, i: nat, last: nat, c: byte): (r: nat)
    requires i <= |s|
    ensures r == last || (i <= r < |s| && s[r] == c && forall k :: i <= k <= r ==> s[k] != Nul)
    ensures r >= last
    decreases |s| - i
  {
    if i == |s| || s[i] == Nul then last
    else LastScan(s, i + 1, if s[i] == c && i >= last then i else last, c)
  }

  /** stringLastOf: -1 for a NULL or empty string; otherwise the index of
      the last `c`, or 0 when `c` does not occur (so an absent `c` and a
      `c` only at index 0 give the same answer). */
  function StringLastOf(s: Option<seq<byte>>, c: byte): (r: int)
    ensures (s.None? || UpToNul(s.value) == []) ==> r == -1
    ensures s.Some? && UpToNul(s.value) != [] ==> 0 <= r < |UpToNul(s.value)|
  {
    if s.None? || s.value == [] || s.value[0] == Nul then -1
    else
      var r := LastScan(s.value, 0, 0, c);
      if r > 0 then NoNulWithinUpToNul(s.value, r); r else r
  }

  /** A position before which no byte is NUL lies inside the C string. */
  lemma {:induction false} NoNulWithinUpToNul(s: seq<byte>, r: nat)
    requires r < |s| && forall k :: 0 <= k <= r ==> s[k] != Nul
    ensures r < |UpToNul(s)|
  {
    if r > 0 {
      NoNulWithinUpToNul(s[1..], r - 1);
    }
  }

  /** A NUL (or the end) at `i` bounds the C string's length by `i`. */
  lemma {:induction false} UpToNulEndsAt(s: seq<byte>, i: nat)
    requires i <= |s| && (i == |s| || s[i] == Nul)
    ensures |UpToNul(s)| <= i
  {
    if s != [] && s[0] != Nul {
      UpToNulEndsAt(s[1..], i - 1);
    }
  }

  /** The scan finds the last occurrence of `c` before the terminator: the
      result holds `c` or is the starting `last`, and nothing after it in
      the string is `c`. */
  lemma {:induction false} LastScanIsLast(s: seq<byte>, i: nat, last: nat, c: byte)
    requires i <= |s| && last <= i
    ensures var r := LastScan(s, i, last, c);
      (r == last || s[r] == c) &&
      forall k :: r < k < |UpToNul(s)| && k >= i ==> s[k] != c
    decreases |s| - i
  {
    var u := UpToNul(s);
    if i == |s| || s[i] == Nul {
      UpToNulEndsAt(s, i);
    } else {
      var last' := if s[i] == c && i >= last then i else last;
      LastScanIsLast(s, i + 1, last', c);
      var r := LastScan(s, i, last, c);
      assert r == LastScan(s, i + 1, last', c);
      forall k | r < k < |u| && k >= i ensures s[k] != c {
        if k == i {
          assert r >= last';
        }
      }
    }
  }

  /** The whole-string version: with a non-empty string, the result is the
      last index holding `c`, or 0 when no byte after index 0 is `c`. */
  lemma StringLastOfIsLast(s: seq<byte>, c: byte)
    requires UpToNul(s) != []
    ensures var r := StringLastOf(Some(s), c);
      0 <= r < |UpToNul(s)| &&
      (r > 0 ==> UpToNul(s)[r] == c) &&
      forall k :: r < k < |UpToNul(s)| ==> UpToNul(s)[k] != c
  {
    LastScanIsLast(s, 0, 0, c);
    var u := UpToNul(s);
    forall k | 0 <= k < |u| ensures u[k] == s[k] {
    }
  }

  /** The path trimmed in the logger's own check: the last '/' of
      "../a.cpp1xxxaaa" is at index 2. */
  lemma StringLastOfSample()
    ensures StringLastOf(Some([46, 46, 47, 97, 46, 99, 112, 112, 49, 120, 120, 120, 97, 97, 97]), 47) == 2
  {
    var t: seq<byte> := [97, 46, 99, 112, 112, 49, 120, 120, 120, 97, 97, 97];
    var s: seq<byte> := [46, 46, 47] + t;
    assert s[0] == 46 && s[1] == 46 && s[2] == 47 && s[3..] == t;
    assert LastScan(s, 0, 0, 47) == LastScan(s, 1, 0, 47) == LastScan(s, 2, 0, 47) == LastScan(s, 3, 2, 47);
    assert 47 !in t;
    LastScanStays(s, 3, 2, 47);
  }

  /** With no `c` from `i` on, the scan keeps `last`. */
  lemma {:induction false} LastScanStays(s: seq<byte>, i: nat, last: nat, c: byte)
    requires i <= |s|
    requires c !in s[i..]
    ensures LastScan(s, i, last, c) == last
    decreases |s| - i
  {
    if i < |s| && s[i] != Nul {
      assert s[i + 1..] == s[i..][1..];
      LastScanStays(s, i + 1, last, c);
    }
  }

  /** For a string holding `c`, stringIndexOf finds its first occurrence
      and stringLastOf its last; they agree exactly when it occurs once. */
  lemma IndexOfBeforeLastOf(s: seq<byte>, c: byte)
    requires UpToNul(s) != [] && c in UpToNul(s)
    ensures StringIndexOf(Some(s), c) < |UpToNul(s)|
    ensures StringIndexOf(Some(s), c) <= StringLastOf(Some(s), c)
  {
    var u := UpToNul(s);
    var j :| 0 <= j < |u| && u[j] == c;
    var i := StringIndexOf(Some(s), c);
    assert i <= j;
    StringLastOfIsLast(s, c);
  }
}
