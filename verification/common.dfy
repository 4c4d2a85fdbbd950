/** Shared vocabulary of the nutcracker model: bytes, optional values, the
    status codes every operation returns, the errno values the code tests,
    and the fixed-width integer conversions the C++ source performs
    implicitly. */
module Common {

  /** An unsigned 8-bit byte, the element type of every buffer. */
  newtype byte = x: int | 0 <= x < 256

  /** A value that may be absent; stands in for a pointer that may be NULL. */
  datatype Option<+T> = None | Some(value: T)

  /** Concatenation regroups; stated once so that callers need not
      rebuild it from extensionality in a crowded context. */
  lemma ConcatAssoc<T>(a: seq<T>, b: seq<T>, c: seq<T>)
    ensures a + b + c == a + (b + c)
  {
  }

  /** Dropping past the whole of `a` drops into `c`. */
  lemma DropAfter<T>(a: seq<T>, c: seq<T>, k: nat)
    requires k <= |c|
    ensures (a + c)[|a| + k..] == c[k..]
  {
  }

  /** Dropping within `a` keeps all of `c`. */
  lemma DropWithin<T>(a: seq<T>, c: seq<T>, n: nat)
    requires n <= |a|
    ensures (a + c)[n..] == a[n..] + c
  {
  }

  /** The status codes of nc_util.h (NC_OK, NC_ERROR, NC_EAGAIN, NC_ENOMEM).
      The event layer's NC_EVENT_* codes have the same values. */
  const Ok: int := 0
  const Error: int := -1
  const Again: int := -2
  const NoMem: int := -3

  /** Descriptors kept back when computing the client-connection limit. */
  const ReservedFds: int := 32

  /** errno values the source compares against (Linux numbering; only their
      distinctness matters to the model). */
  const ENOENT: int := 2
  const EINTR: int := 4
  const EBADF: int := 9
  const EAGAIN: int := 11
  const EWOULDBLOCK: int := 11
  const ENOMEM: int := 12
  const EINVAL: int := 22
  const ENFILE: int := 23
  const EMFILE: int := 24
  const ERANGE: int := 34
  const ECONNABORTED: int := 103
  const ETIMEDOUT: int := 110
  const EHOSTDOWN: int := 112
  const EINPROGRESS: int := 115

  /** Address families. */
  const AF_UNIX: int := 1
  const AF_INET: int := 2
  const AF_INET6: int := 10

  const Two16: int := 0x1_0000
  const Two31: int := 0x8000_0000
  const Two32: int := 0x1_0000_0000
  const Two64: int := 0x1_0000_0000_0000_0000

  /** Conversion to `uint32_t`: reduction modulo 2^32. */
  function U32(x: int): (r: nat)
    ensures r < Two32
    ensures 0 <= x < Two32 ==> r == x
    ensures (r - x) % Two32 == 0
  {
    x % Two32
  }

  /** Conversion to `uint64_t`: reduction modulo 2^64. */
  function U64(x: int): (r: nat)
    ensures r < Two64
    ensures 0 <= x < Two64 ==> r == x
    ensures (r - x) % Two64 == 0
  {
    x % Two64
  }

  /** Conversion to `uint16_t`: reduction modulo 2^16. */
  function U16(x: int): (r: nat)
    ensures r < Two16
    ensures 0 <= x < Two16 ==> r == x
    ensures (r - x) % Two16 == 0
  {
    x % Two16
  }

  /** Conversion to a two's-complement 32-bit `int`. */
  function I32(x: int): (r: int)
    ensures -Two31 <= r < Two31
    ensures -Two31 <= x < Two31 ==> r == x
    ensures (r - x) % Two32 == 0
  {
    var u := x % Two32;
    if u < Two31 then u else u - Two32
  }

  /** The NUL byte that terminates C strings. */
  const Nul: byte := 0

  /** No byte of `s` is the terminating NUL. */
  predicate NoNul(s: seq<byte>) {
    forall i :: 0 <= i < |s| ==> s[i] != Nul
  }
}
