/** Buffer segments (NcMbuf, nc_mbuf.h). A segment is a chunk whose usable
    region `[start, end)` follows a fixed header; the cursors satisfy
    `start <= pos <= last <= end`. Bytes in `[pos, last)` are the segment's
    content, `[last, end)` is free room. In the model `start` is index 0 of
    `data` and `end` is `|data|`. */
module Mbuf {
  import opened Common

  const MbufMinSize: nat := 512
  const MbufMaxSize: nat := 16777216
  const MbufSize: nat := 16384

  /** sizeof(NcMbuf) on an LP64 target: a 4-byte magic padded to 8, five
      8-byte pointers and a 4-byte chunk size padded to 8. */
  const MbufHeaderSize: nat := 56

  datatype Mbuf = Mbuf(data: seq<byte>, pos: nat, last: nat)
  {
    ghost predicate Valid() {
      pos <= last <= |data|
    }
  }

  /** empty(): the segment holds no content. */
  predicate IsEmpty(m: Mbuf) {
    m.pos == m.last
  }

  /** full(): no room is left after the write cursor. */
  predicate IsFull(m: Mbuf) {
    m.last == |m.data|
  }

  /** length(): bytes between pos and last. */
  function Length(m: Mbuf): nat
    requires m.Valid()
  {
    m.last - m.pos
  }

  /** size(): room between last and end. */
  function Size(m: Mbuf): nat
    requires m.Valid()
  {
    |m.data| - m.last
  }

  /** dataSize(): the usable region, chunk size minus header. */
  function DataSize(m: Mbuf): nat {
    |m.data|
  }

  /** A segment made for a chunk of `chunkSize` bytes; `junk` is whatever
      the fresh memory held. Both cursors start at `start`. */
  function NewMbuf(chunkSize: nat, junk: seq<byte>): (m: Mbuf)
    requires chunkSize >= MbufHeaderSize
    requires |junk| == chunkSize - MbufHeaderSize
    ensures m.Valid()
  {
    Mbuf(junk, 0, 0)
  }

  /** A freshly made segment is empty, reports its whole region as room,
      and is full only when the chunk is no bigger than the header. */
  lemma NewMbufIsEmpty(chunkSize: nat, junk: seq<byte>)
    requires chunkSize >= MbufHeaderSize
    requires |junk| == chunkSize - MbufHeaderSize
    ensures var m := NewMbuf(chunkSize, junk);
      IsEmpty(m) && Length(m) == 0 && Content(m) == [] &&
      Size(m) == chunkSize - MbufHeaderSize == DataSize(m) &&
      (IsFull(m) <==> chunkSize == MbufHeaderSize)
  {
  }

  /** The readable bytes `[pos, last)`. */
  function Content(m: Mbuf): seq<byte>
    requires m.Valid()
  {
    m.data[m.pos..m.last]
  }

  /** The three regions always add up to the usable region. */
  lemma RegionsPartition(m: Mbuf)
    requires m.Valid()
    ensures m.pos + Length(m) + Size(m) == DataSize(m)
    ensures IsEmpty(m) <==> Length(m) == 0
    ensures IsFull(m) <==> Size(m) == 0
  {
  }

  /** setPos(n): the read cursor advances by `n` (consuming content). */
  function SetPos(m: Mbuf, n: nat): (r: Mbuf)
    requires m.Valid() && n <= Length(m)
    ensures r.Valid() && r.data == m.data && r.last == m.last
    ensures Content(r) == Content(m)[n..]
    ensures Length(r) == Length(m) - n
  {
    m.(pos := m.pos + n)
  }

  /** setLast(n): the write cursor advances over `n` bytes already placed
      in the room. */
  function SetLast(m: Mbuf, n: nat): (r: Mbuf)
    requires m.Valid() && n <= Size(m)
    ensures r.Valid() && r.data == m.data && r.pos == m.pos
    ensures Content(r) == Content(m) + m.data[m.last..m.last + n]
    ensures Size(r) == Size(m) - n
  {
    m.(last := m.last + n)
  }

  /** setComplete(): everything has been consumed. */
  function SetComplete(m: Mbuf): (r: Mbuf)
    requires m.Valid()
    ensures r.Valid() && IsEmpty(r) && r.last == m.last && r.data == m.data
  {
    m.(pos := m.last)
  }

  /** rewind(): pos goes back to start and last is moved to end, so the
      whole usable region counts as content. reset() is the same. */
  function Rewind(m: Mbuf): (r: Mbuf)
    requires m.Valid()
    ensures r.Valid() && r.data == m.data
    ensures IsFull(r) && Length(r) == DataSize(m) && Content(r) == m.data
    ensures IsEmpty(r) <==> DataSize(m) == 0
  {
    m.(pos := 0, last := |m.data|)
  }

  function Reset(m: Mbuf): (r: Mbuf)
    requires m.Valid()
    ensures r == Rewind(m)
  {
    Rewind(m)
  }

  /** Writes `src` into `data` at offset `at`. */
  function Overwrite(data: seq<byte>, at: nat, src: seq<byte>): (r: seq<byte>)
    requires at + |src| <= |data|
    ensures |r| == |data|
    ensures r[..at] == data[..at]
    ensures r[at..at + |src|] == src
    ensures r[at + |src|..] == data[at + |src|..]
  {
    data[..at] + src + data[at + |src|..]
  }

  /** copy(src, n): `n` bytes of `src` are placed at last and last moves
      past them; n == 0 leaves the segment untouched. The source does not
      check the room, so the caller must guarantee it. */
  function Copy(m: Mbuf, src: seq<byte>, n: nat): (r: Mbuf)
    requires m.Valid() && n <= |src| && n <= Size(m)
    ensures r.Valid() && r.pos == m.pos && r.last == m.last + n
    ensures |r.data| == |m.data|
    ensures Content(r) == Content(m) + src[..n]
    ensures r.data[..m.pos] == m.data[..m.pos]
    ensures r.data[m.last + n..] == m.data[m.last + n..]
  {
    if n == 0 then m
    else
      var d := Overwrite(m.data, m.last, src[..n]);
      assert d[m.pos..m.last] == m.data[m.pos..m.last] by {
        assert d[m.pos..m.last] == d[..m.last][m.pos..];
      }
      assert d[m.pos..m.last + n] == d[m.pos..m.last] + d[m.last..m.last + n];
      Mbuf(d, m.pos, m.last + n)
  }

  /** split(p): a new segment of `chunkSize` receives the bytes `[p, last)`
      and this segment's last is cut back to `p`. */
  function Split(m: Mbuf, p: nat, chunkSize: nat, junk: seq<byte>): (r: (Mbuf, Mbuf))
    requires m.Valid() && m.pos <= p <= m.last
    requires chunkSize >= MbufHeaderSize && |junk| == chunkSize - MbufHeaderSize
    requires m.last - p <= chunkSize - MbufHeaderSize
    ensures r.0.Valid() && r.1.Valid()
    ensures r.0 == m.(last := p)
    ensures Content(r.0) == m.data[m.pos..p]
    ensures Content(r.1) == m.data[p..m.last]
    ensures r.1.pos == 0 && DataSize(r.1) == chunkSize - MbufHeaderSize
  {
    var nbuf := NewMbuf(chunkSize, junk);
    var tail := m.data[p..m.last];
    (m.(last := p), Copy(nbuf, tail, |tail|))
  }

  /** Splitting neither loses nor duplicates content. */
  lemma SplitConservesContent(m: Mbuf, p: nat, chunkSize: nat, junk: seq<byte>)
    requires m.Valid() && m.pos <= p <= m.last
    requires chunkSize >= MbufHeaderSize && |junk| == chunkSize - MbufHeaderSize
    requires m.last - p <= chunkSize - MbufHeaderSize
    ensures var r := Split(m, p, chunkSize, junk);
      Content(r.0) + Content(r.1) == Content(m) &&
      Length(r.0) + Length(r.1) == Length(m)
  {
    var r := Split(m, p, chunkSize, junk);
    assert m.data[m.pos..p] + m.data[p..m.last] == m.data[m.pos..m.last];
  }

  /** Consuming content after copying it in gives back what was copied. */
  lemma CopyThenConsume(m: Mbuf, src: seq<byte>)
    requires m.Valid() && IsEmpty(m) && |src| <= Size(m)
    ensures var r := Copy(m, src, |src|);
      Content(r) == src && IsEmpty(SetComplete(r)) &&
      Content(SetPos(r, |src|)) == []
  {
    assert src[..|src|] == src;
  }
}
