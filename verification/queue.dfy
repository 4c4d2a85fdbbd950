/** The FIFO queues the source keeps of messages, segments and connections
    (NcQueue). A queue is a sequence; `Push` appends at the tail, `Front`
    is the head or nothing, and `Remove` deletes the first occurrence of an
    element. */
module Queue {
  import opened Common

  function Push<T>(q: seq<T>, x: T): (r: seq<T>)
    ensures |r| == |q| + 1 && r[..|q|] == q && r[|q|] == x
  {
    q + [x]
  }

  function Front<T>(q: seq<T>): (r: Option<T>)
    ensures r.None? <==> q == []
    ensures r.Some? ==> r.value == q[0]
  {
    if q == [] then None else Some(q[0])
  }

  /** Index of the first occurrence of `x`, or |q| when absent. */
  function IndexOf<T(==)>(q: seq<T>, x: T): (i: nat)
    ensures i <= |q|
    ensures i < |q| ==> q[i] == x
    ensures forall j :: 0 <= j < i ==> q[j] != x
    ensures i == |q| <==> x !in q
  {
    if q == [] then 0 else if q[0] == x then 0 else 1 + IndexOf(q[1..], x)
  }

  /** Deletes the first occurrence of `x`; a queue without `x` is unchanged. */
  function Remove<T(==)>(q: seq<T>, x: T): (r: seq<T>)
    ensures x !in q ==> r == q
    ensures x in q ==> r == q[..IndexOf(q, x)] + q[IndexOf(q, x) + 1..]
    ensures x in q ==> |r| == |q| - 1
  {
    var i := IndexOf(q, x);
    if i == |q| then q else q[..i] + q[i + 1..]
  }

  /** Removing is the inverse of pushing an element the queue did not hold. */
  lemma RemoveUndoesPush<T>(q: seq<T>, x: T)
    requires x !in q
    ensures Remove(Push(q, x), x) == q
  {
    assert IndexOf(q + [x], x) == |q|;
  }

  /** Removing takes exactly one copy of `x` out of the queue's contents. */
  lemma RemoveMultiset<T>(q: seq<T>, x: T)
    ensures multiset(Remove(q, x)) == multiset(q) - multiset{x}
  {
    if x in q {
      var i := IndexOf(q, x);
      assert q == q[..i] + [x] + q[i + 1..];
    } else {
      assert multiset(q)[x] == 0;
    }
  }

  /** Relative order of the remaining elements is kept. */
  lemma RemoveKeepsOrder<T>(q: seq<T>, x: T, a: nat, b: nat)
    requires x in q && a < b < |q| && q[a] != x && q[b] != x
    requires a != IndexOf(q, x) && b != IndexOf(q, x)
    ensures exists a', b' :: 0 <= a' < b' < |Remove(q, x)| &&
              Remove(q, x)[a'] == q[a] && Remove(q, x)[b'] == q[b]
  {
    var i := IndexOf(q, x);
    var r := Remove(q, x);
    var a' := if a < i then a else a - 1;
    var b' := if b < i then b else b - 1;
    assert r[a'] == q[a];
    assert r[b'] == q[b];
  }
}
