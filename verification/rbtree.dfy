/** The red-black tree of nc_rbtree.h that orders messages by deadline.

    The source links `rbnode`s by pointer and marks missing children with
    its sentinel pointer; here a tree is an inductive value whose `Leaf`
    stands for that sentinel, read as a black node, and whose nodes carry
    the ordering key and the identity of the message embedding the node.
    The context's tree is built with a NULL sentinel, so the source's
    reads of the sentinel's colour and parent dereference NULL where the
    model reads a black leaf. Because a node is a pointer, one message is
    in the tree at most once; `IdsDistinct` states that.

    Insert is the classic bottom-up insertion: descend with ties going
    right, attach a red node, then repair at each black grandparent (uncle
    red: recolour; uncle black: one or two rotations), and blacken the
    root. Removal splices the node out; the recolouring loop that follows
    the splice in the source only rotates and recolours, which
    `RotationsKeepInOrder` shows cannot change the order. Colours after a
    removal, and the red-black balance, are not modelled. */
module RbTree {
  import opened Common

  datatype Color = Red | Black

  /** A message's place in the index: its deadline key and its identity. */
  datatype Entry = Entry(key: int, id: nat)

  datatype Tree = Leaf | Node(color: Color, key: int, id: nat, left: Tree, right: Tree)

  predicate IsRed(t: Tree) { t.Node? && t.color == Red }

  function Blacken(t: Tree): Tree {
    if t.Leaf? then t else t.(color := Black)
  }

  function InOrder(t: Tree): (s: seq<Entry>)
    ensures t.Leaf? <==> s == []
  {
    match t
    case Leaf => []
    case Node(_, k, i, l, r) => InOrder(l) + [Entry(k, i)] + InOrder(r)
  }

  /** Non-decreasing keys from left to right. */
  predicate Sorted(s: seq<Entry>) {
    forall a, b :: 0 <= a < b < |s| ==> s[a].key <= s[b].key
  }

  predicate IdsDistinct(s: seq<Entry>) {
    forall a, b :: 0 <= a < b < |s| ==> s[a].id != s[b].id
  }

  predicate IsSearchTree(t: Tree) { Sorted(InOrder(t)) }

  /** Some entry of `s` belongs to message `id`. */
  predicate HasId(s: seq<Entry>, id: nat) {
    exists j :: 0 <= j < |s| && s[j].id == id
  }

  predicate Contains(t: Tree, id: nat) {
    match t
    case Leaf => false
    case Node(_, _, i, l, r) => i == id || Contains(l, id) || Contains(r, id)
  }

  lemma {:induction false} HasIdConcat(a: seq<Entry>, b: seq<Entry>, id: nat)
    ensures HasId(a + b, id) <==> HasId(a, id) || HasId(b, id)
  {
    var s := a + b;
    if HasId(s, id) {
      var j :| 0 <= j < |s| && s[j].id == id;
      if j < |a| { assert a[j] == s[j]; } else { assert b[j - |a|] == s[j]; }
    }
    if HasId(a, id) {
      var j :| 0 <= j < |a| && a[j].id == id;
      assert s[j] == a[j];
    }
    if HasId(b, id) {
      var j :| 0 <= j < |b| && b[j].id == id;
      assert s[|a| + j] == b[j];
    }
  }

  lemma {:induction false} ContainsInOrder(t: Tree, id: nat)
    ensures Contains(t, id) <==> HasId(InOrder(t), id)
  {
    match t
    case Leaf =>
    case Node(_, k, i, l, r) =>
      ContainsInOrder(l, id);
      ContainsInOrder(r, id);
      HasIdConcat(InOrder(l) + [Entry(k, i)], InOrder(r), id);
      HasIdConcat(InOrder(l), [Entry(k, i)], id);
      assert HasId([Entry(k, i)], id) <==> i == id by {
        if i == id { assert [Entry(k, i)][0].id == id; }
      }
  }

  // ---------------------------------------------------------------- min

  /** min(): the leftmost node, or nothing for the empty tree. */
  function Min(t: Tree): (r: Option<Entry>)
    ensures r.None? <==> t.Leaf?
    ensures r.Some? ==> r.value == InOrder(t)[0]
  {
    match t
    case Leaf => None
    case Node(_, k, i, l, r) =>
      if l.Leaf? then Some(Entry(k, i)) else Min(l)
  }

  /** In a search tree the leftmost entry has the least key. */
  lemma {:induction false} MinIsLeast(t: Tree)
    requires IsSearchTree(t) && t.Node?
    ensures forall e :: e in InOrder(t) ==> Min(t).value.key <= e.key
  {
    var s := InOrder(t);
    forall e | e in s ensures s[0].key <= e.key {
      var j :| 0 <= j < |s| && s[j] == e;
      if j > 0 { assert s[0].key <= s[j].key; }
    }
  }

  // ---------------------------------------------------------- rotations

  /** leftRotate at the root of `t`: the right child moves up. */
  function RotateLeft(t: Tree): (r: Tree)
    requires t.Node? && t.right.Node?
    ensures InOrder(r) == InOrder(t)
  {
    var x := t.right;
    Node(x.color, x.key, x.id, Node(t.color, t.key, t.id, t.left, x.left), x.right)
  }

  /** rightRotate at the root of `t`: the left child moves up. */
  function RotateRight(t: Tree): (r: Tree)
    requires t.Node? && t.left.Node?
    ensures InOrder(r) == InOrder(t)
  {
    var x := t.left;
    Node(x.color, x.key, x.id, x.left, Node(t.color, t.key, t.id, x.right, t.right))
  }

  /** Rotations are inverse to each other. */
  lemma {:induction false} RotationsInverse(t: Tree)
    requires t.Node? && t.right.Node?
    ensures RotateRight(RotateLeft(t)) == t
  {
  }

  /** One step of the source's rebalancing loops: a rotation, or a change
      of colour, at some position of the tree. */
  datatype Step = RotL(path: seq<bool>) | RotR(path: seq<bool>) | Paint(path: seq<bool>, c: Color)

  /** Applies a step at the node reached by `path` (true = go right);
      a step that does not fit the tree's shape leaves it alone. */
  function ApplyStep(t: Tree, st: Step): Tree
    decreases |st.path|
  {
    if t.Leaf? then t
    else if st.path == [] then
      match st
      case RotL(_) => if t.right.Node? then RotateLeft(t) else t
      case RotR(_) => if t.left.Node? then RotateRight(t) else t
      case Paint(_, c) => t.(color := c)
    else
      var rest := st.(path := st.path[1..]);
      if st.path[0] then t.(right := ApplyStep(t.right, rest))
      else t.(left := ApplyStep(t.left, rest))
  }

  function ApplySteps(t: Tree, steps: seq<Step>): Tree
    decreases |steps|
  {
    if steps == [] then t else ApplySteps(ApplyStep(t, steps[0]), steps[1..])
  }

  lemma {:induction false} StepKeepsInOrder(t: Tree, st: Step)
    ensures InOrder(ApplyStep(t, st)) == InOrder(t)
    decreases |st.path|
  {
    if t.Node? && st.path != [] {
      StepKeepsInOrder(t.right, st.(path := st.path[1..]));
      StepKeepsInOrder(t.left, st.(path := st.path[1..]));
    }
  }

  /** Whatever sequence of rotations and recolourings a rebalancing loop
      performs, the in-order sequence of entries is unchanged. */
  lemma {:induction false} RotationsKeepInOrder(t: Tree, steps: seq<Step>)
    ensures InOrder(ApplySteps(t, steps)) == InOrder(t)
    decreases |steps|
  {
    if steps != [] {
      StepKeepsInOrder(t, steps[0]);
      RotationsKeepInOrder(ApplyStep(t, steps[0]), steps[1..]);
    }
  }

  // ------------------------------------------------------------- insert

  /** The repair applied at a black grandparent whose red child has a red
      child: recolour when the uncle is red, otherwise rotate the red pair
      up (twice when the red grandchild is an inner child). */
  function Fix(g: Tree): (r: Tree)
    ensures r.Node? <==> g.Node?
    ensures r != g ==> g.color == Black
    ensures r != g && IsRed(r) ==> !IsRed(r.left) && !IsRed(r.right)
  {
    match g
    case Leaf => g
    case Node(c, k, i, l, r) =>
      if c != Black then g
      else if IsRed(l) && (IsRed(l.left) || IsRed(l.right)) then FixLeft(g)
      else if IsRed(r) && (IsRed(r.left) || IsRed(r.right)) then FixRight(g)
      else g
  }

  /** The red pair hangs on the left. */
  function FixLeft(g: Tree): (t: Tree)
    requires g.Node? && IsRed(g.left) && (IsRed(g.left.left) || IsRed(g.left.right))
    ensures IsRed(g.right) ==> IsRed(t) && t.left.Node? && !IsRed(t.left) && t.right.Node? && !IsRed(t.right)
    ensures !IsRed(g.right) ==> t.Node? && t.color == Black && IsRed(t.left) && IsRed(t.right)
  {
    var Node(_, k, i, l, r) := g;
    if IsRed(r) then Node(Red, k, i, Blacken(l), Blacken(r))
    else if IsRed(l.left) then
      Node(Black, l.key, l.id, l.left, Node(Red, k, i, l.right, r))
    else
      var x := l.right;
      Node(Black, x.key, x.id, Node(Red, l.key, l.id, l.left, x.left), Node(Red, k, i, x.right, r))
  }

  /** The red pair hangs on the right. */
  function FixRight(g: Tree): (t: Tree)
    requires g.Node? && IsRed(g.right) && (IsRed(g.right.left) || IsRed(g.right.right))
    ensures IsRed(g.left) ==> IsRed(t) && t.left.Node? && !IsRed(t.left) && t.right.Node? && !IsRed(t.right)
    ensures !IsRed(g.left) ==> t.Node? && t.color == Black && IsRed(t.left) && IsRed(t.right)
  {
    var Node(_, k, i, l, r) := g;
    if IsRed(l) then Node(Red, k, i, Blacken(l), Blacken(r))
    else if IsRed(r.right) then
      Node(Black, r.key, r.id, Node(Red, k, i, l, r.left), r.right)
    else
      var x := r.left;
      Node(Black, x.key, x.id, Node(Red, k, i, l, x.left), Node(Red, r.key, r.id, x.right, r.right))
  }

  lemma {:induction false} FixLeftKeepsInOrder(g: Tree)
    requires g.Node? && IsRed(g.left) && (IsRed(g.left.left) || IsRed(g.left.right))
    ensures InOrder(FixLeft(g)) == InOrder(g)
  {
    var Node(_, k, i, l, r) := g;
    if IsRed(r) {
      assert FixLeft(g) == Node(Red, k, i, Blacken(l), Blacken(r));
    } else if IsRed(l.left) {
      assert InOrder(l) == InOrder(l.left) + [Entry(l.key, l.id)] + InOrder(l.right);
    } else {
      var x := l.right;
      var out := FixLeft(g);
      assert out == Node(Black, x.key, x.id, Node(Red, l.key, l.id, l.left, x.left), Node(Red, k, i, x.right, r));
      assert InOrder(out) == (InOrder(l.left) + [Entry(l.key, l.id)] + InOrder(x.left)) + [Entry(x.key, x.id)] +
        (InOrder(x.right) + [Entry(k, i)] + InOrder(r));
      assert InOrder(l) == InOrder(l.left) + [Entry(l.key, l.id)] +
        (InOrder(x.left) + [Entry(x.key, x.id)] + InOrder(x.right));
    }
  }

  lemma {:induction false} FixRightKeepsInOrder(g: Tree)
    requires g.Node? && IsRed(g.right) && (IsRed(g.right.left) || IsRed(g.right.right))
    ensures InOrder(FixRight(g)) == InOrder(g)
  {
    var Node(_, k, i, l, r) := g;
    if IsRed(l) {
      assert FixRight(g) == Node(Red, k, i, Blacken(l), Blacken(r));
    } else if IsRed(r.right) {
      assert InOrder(r) == InOrder(r.left) + [Entry(r.key, r.id)] + InOrder(r.right);
    } else {
      var x := r.left;
      var out := FixRight(g);
      assert out == Node(Black, x.key, x.id, Node(Red, k, i, l, x.left), Node(Red, r.key, r.id, x.right, r.right));
      assert InOrder(out) == (InOrder(l) + [Entry(k, i)] + InOrder(x.left)) + [Entry(x.key, x.id)] +
        (InOrder(x.right) + [Entry(r.key, r.id)] + InOrder(r.right));
      assert InOrder(r) == (InOrder(x.left) + [Entry(x.key, x.id)] + InOrder(x.right)) +
        [Entry(r.key, r.id)] + InOrder(r.right);
    }
  }

  /** The insertion repair only rotates and recolours. */
  lemma {:induction false} FixKeepsInOrder(g: Tree)
    ensures InOrder(Fix(g)) == InOrder(g)
  {
    if g.Node? && g.color == Black {
      if IsRed(g.left) && (IsRed(g.left.left) || IsRed(g.left.right)) {
        FixLeftKeepsInOrder(g);
      } else if IsRed(g.right) && (IsRed(g.right.left) || IsRed(g.right.right)) {
        FixRightKeepsInOrder(g);
      }
    }
  }

  /** The entry sequence after placing `e` the way the descent does: after
      every entry whose key is not greater than `e`'s. */
  function InsertSorted(s: seq<Entry>, e: Entry): (r: seq<Entry>)
    ensures |r| == |s| + 1
  {
    if s == [] then [e]
    else if e.key < s[0].key then [e] + s
    else [s[0]] + InsertSorted(s[1..], e)
  }

  lemma {:induction false} InsertSortedMultiset(s: seq<Entry>, e: Entry)
    ensures multiset(InsertSorted(s, e)) == multiset(s) + multiset{e}
  {
    if s != [] && e.key >= s[0].key {
      InsertSortedMultiset(s[1..], e);
      assert s == [s[0]] + s[1..];
    }
  }

  function Ins(t: Tree, e: Entry): (r: Tree)
    ensures r.Node?
  {
    match t
    case Leaf => Node(Red, e.key, e.id, Leaf, Leaf)
    case Node(c, k, i, l, r) =>
      if e.key < k then Fix(Node(c, k, i, Ins(l, e), r))
      else Fix(Node(c, k, i, l, Ins(r, e)))
  }

  /** insert(node): the new entry joins the tree and the root is black. */
  function Insert(t: Tree, e: Entry): (r: Tree)
    ensures r.Node? && r.color == Black
  {
    Blacken(Ins(t, e))
  }

  lemma {:induction false} InsertSortedBefore(a: seq<Entry>, b: seq<Entry>, e: Entry)
    requires b == [] || e.key < b[0].key
    ensures InsertSorted(a + b, e) == InsertSorted(a, e) + b
  {
    if a != [] {
      assert (a + b)[0] == a[0];
      assert (a + b)[1..] == a[1..] + b;
      InsertSortedBefore(a[1..], b, e);
    }
  }

  lemma {:induction false} InsertSortedAfter(a: seq<Entry>, b: seq<Entry>, e: Entry)
    requires forall x :: x in a ==> x.key <= e.key
    ensures InsertSorted(a + b, e) == a + InsertSorted(b, e)
  {
    if a == [] {
      assert a + b == b;
    } else {
      assert a[0] in a;
      assert forall x :: x in a[1..] ==> x in a;
      assert (a + b)[0] == a[0];
      assert (a + b)[1..] == a[1..] + b;
      InsertSortedAfter(a[1..], b, e);
      calc {
        InsertSorted(a + b, e);
        [a[0]] + InsertSorted(a[1..] + b, e);
        [a[0]] + (a[1..] + InsertSorted(b, e));
        { assert [a[0]] + a[1..] == a; }
        a + InsertSorted(b, e);
      }
    }
  }

  lemma {:induction false} SortedParts(l: seq<Entry>, m: Entry, r: seq<Entry>)
    requires Sorted(l + [m] + r)
    ensures Sorted(l) && Sorted(r)
    ensures forall x :: x in l ==> x.key <= m.key
    ensures forall x :: x in r ==> m.key <= x.key
  {
    var s := l + [m] + r;
    forall a, b | 0 <= a < b < |r| ensures r[a].key <= r[b].key {
      assert s[|l| + 1 + a] == r[a] && s[|l| + 1 + b] == r[b];
    }
    forall x | x in l ensures x.key <= m.key {
      var j :| 0 <= j < |l| && l[j] == x;
      assert s[j] == x && s[|l|] == m;
    }
    forall x | x in r ensures m.key <= x.key {
      var j :| 0 <= j < |r| && r[j] == x;
      assert s[|l| + 1 + j] == x && s[|l|] == m;
    }
    forall a, b | 0 <= a < b < |l| ensures l[a].key <= l[b].key {
      assert s[a] == l[a] && s[b] == l[b];
    }
  }

  lemma {:induction false} InsLeftStep(t: Tree, e: Entry)
    requires t.Node? && e.key < t.key
    requires InOrder(Ins(t.left, e)) == InsertSorted(InOrder(t.left), e)
    ensures InOrder(Ins(t, e)) == InsertSorted(InOrder(t), e)
  {
    var Node(c, k, i, l, r) := t;
    var m := Entry(k, i);
    var sl, sr := InOrder(l), InOrder(r);
    var n := Node(c, k, i, Ins(l, e), r);
    assert Ins(t, e) == Fix(n);
    calc {
      InOrder(Ins(t, e));
      { FixKeepsInOrder(n); }
      InOrder(n);
      InsertSorted(sl, e) + [m] + sr;
      InsertSorted(sl, e) + ([m] + sr);
      { InsertSortedBefore(sl, [m] + sr, e); }
      InsertSorted(sl + ([m] + sr), e);
      { assert sl + ([m] + sr) == InOrder(t); }
      InsertSorted(InOrder(t), e);
    }
  }

  lemma {:induction false} InsRightStep(t: Tree, e: Entry)
    requires IsSearchTree(t) && t.Node? && t.key <= e.key
    requires InOrder(Ins(t.right, e)) == InsertSorted(InOrder(t.right), e)
    ensures InOrder(Ins(t, e)) == InsertSorted(InOrder(t), e)
  {
    var Node(c, k, i, l, r) := t;
    var m := Entry(k, i);
    var sl, sr := InOrder(l), InOrder(r);
    SortedParts(sl, m, sr);
    var n := Node(c, k, i, l, Ins(r, e));
    FixKeepsInOrder(n);
    assert forall x :: x in sl + [m] ==> x.key <= e.key;
    InsertSortedAfter(sl + [m], sr, e);
  }

  lemma {:induction false} InsInOrder(t: Tree, e: Entry)
    requires IsSearchTree(t)
    ensures InOrder(Ins(t, e)) == InsertSorted(InOrder(t), e)
  {
    if t.Node? {
      SortedParts(InOrder(t.left), Entry(t.key, t.id), InOrder(t.right));
      if e.key < t.key {
        InsInOrder(t.left, e);
        InsLeftStep(t, e);
      } else {
        InsInOrder(t.right, e);
        InsRightStep(t, e);
      }
    }
  }

  lemma {:induction false} InsertSortedMembers(s: seq<Entry>, e: Entry)
    ensures forall x :: x in InsertSorted(s, e) <==> x in s || x == e
  {
    if s != [] && e.key >= s[0].key {
      InsertSortedMembers(s[1..], e);
      assert s == [s[0]] + s[1..];
    }
  }

  lemma {:induction false} InsertSortedKeepsSorted(s: seq<Entry>, e: Entry)
    requires Sorted(s)
    ensures Sorted(InsertSorted(s, e))
  {
    if s == [] {
    } else if e.key < s[0].key {
      forall x | x in s ensures e.key <= x.key {
        var j :| 0 <= j < |s| && s[j] == x;
        assert s[0].key <= s[j].key;
      }
      SortedCons(e, s);
    } else {
      var t := InsertSorted(s[1..], e);
      assert Sorted(s[1..]) by {
        forall a, b | 0 <= a < b < |s[1..]| ensures s[1..][a].key <= s[1..][b].key {
          assert s[1..][a] == s[a + 1] && s[1..][b] == s[b + 1];
        }
      }
      InsertSortedKeepsSorted(s[1..], e);
      InsertSortedMembers(s[1..], e);
      forall x | x in t ensures s[0].key <= x.key {
        if x != e {
          var j :| 0 <= j < |s[1..]| && s[1..][j] == x;
          assert s[j + 1] == x;
        }
      }
      SortedCons(s[0], t);
    }
  }

  /** An entry no greater than any of a sorted sequence can go in front. */
  lemma SortedCons(x: Entry, t: seq<Entry>)
    requires Sorted(t)
    requires forall y :: y in t ==> x.key <= y.key
    ensures Sorted([x] + t)
  {
    var r := [x] + t;
    forall a, b | 0 <= a < b < |r| ensures r[a].key <= r[b].key {
      assert r[b] == t[b - 1];
      if a > 0 {
        assert r[a] == t[a - 1];
      } else {
        assert r[b] in t;
      }
    }
  }

  /** Inserting into a search tree keeps it a search tree, and its entries
      become the old ones with the new entry placed after every entry of
      equal or smaller key. */
  lemma {:induction false} InsertKeepsOrder(t: Tree, e: Entry)
    requires IsSearchTree(t)
    ensures InOrder(Insert(t, e)) == InsertSorted(InOrder(t), e)
    ensures IsSearchTree(Insert(t, e))
    ensures multiset(InOrder(Insert(t, e))) == multiset(InOrder(t)) + multiset{e}
  {
    InsInOrder(t, e);
    InsertSortedKeepsSorted(InOrder(t), e);
    InsertSortedMultiset(InOrder(t), e);
  }

  // ------------------------------------------------------------- remove

  /** The leftmost node's entry and the tree with that node replaced by its
      right child. */
  function ExtractMin(t: Tree): (r: (Entry, Tree))
    requires t.Node?
    ensures [r.0] + InOrder(r.1) == InOrder(t)
  {
    if t.left.Leaf? then (Entry(t.key, t.id), t.right)
    else
      var (m, l') := ExtractMin(t.left);
      (m, t.(left := l'))
  }

  /** Takes the root node out of a subtree: a missing child lets the other
      child move up; otherwise the successor (least entry of the right
      subtree) takes the root's place and colour. */
  function Splice(t: Tree): (r: Tree)
    requires t.Node?
    ensures InOrder(r) == InOrder(t.left) + InOrder(t.right)
  {
    if t.left.Leaf? then t.right
    else if t.right.Leaf? then t.left
    else
      var (m, r') := ExtractMin(t.right);
      Node(t.color, m.key, m.id, t.left, r')
  }

  /** Splices out the first node (root, then left, then right) with `id`. */
  function Del(t: Tree, id: nat): Tree {
    match t
    case Leaf => Leaf
    case Node(c, k, i, l, r) =>
      if i == id then Splice(t)
      else if Contains(l, id) then Node(c, k, i, Del(l, id), r)
      else Node(c, k, i, l, Del(r, id))
  }

  /** Entries with a given identity dropped. */
  function Without(s: seq<Entry>, id: nat): (r: seq<Entry>)
    ensures |r| <= |s|
  {
    if s == [] then []
    else if s[0].id == id then Without(s[1..], id)
    else [s[0]] + Without(s[1..], id)
  }

  lemma {:induction false} WithoutConcat(a: seq<Entry>, b: seq<Entry>, id: nat)
    ensures Without(a + b, id) == Without(a, id) + Without(b, id)
  {
    if a != [] {
      assert (a + b)[0] == a[0];
      assert (a + b)[1..] == a[1..] + b;
      WithoutConcat(a[1..], b, id);
      if a[0].id != id {
        assert Without(a + b, id) == [a[0]] + Without(a[1..] + b, id);
      }
    } else {
      assert a + b == b;
    }
  }

  lemma {:induction false} WithoutAbsent(s: seq<Entry>, id: nat)
    requires !HasId(s, id)
    ensures Without(s, id) == s
  {
    if s != [] {
      assert s[0].id != id;
      assert !HasId(s[1..], id) by {
        forall j | 0 <= j < |s[1..]| ensures s[1..][j].id != id {
          assert s[1..][j] == s[j + 1];
        }
      }
      WithoutAbsent(s[1..], id);
    }
  }

  lemma {:induction false} WithoutSubseq(s: seq<Entry>, id: nat)
    ensures forall e :: e in Without(s, id) ==> e in s && e.id != id
  {
    if s != [] {
      WithoutSubseq(s[1..], id);
    }
  }

  lemma {:induction false} WithoutKeepsSorted(s: seq<Entry>, id: nat)
    requires Sorted(s)
    ensures Sorted(Without(s, id))
  {
    if s != [] {
      assert Sorted(s[1..]) by {
        forall a, b | 0 <= a < b < |s[1..]| ensures s[1..][a].key <= s[1..][b].key {
          assert s[1..][a] == s[a + 1] && s[1..][b] == s[b + 1];
        }
      }
      WithoutKeepsSorted(s[1..], id);
      WithoutSubseq(s[1..], id);
      var w := Without(s[1..], id);
      if s[0].id != id {
        forall x | x in w ensures s[0].key <= x.key {
          var j :| 0 <= j < |s[1..]| && s[1..][j] == x;
          assert s[j + 1] == x;
        }
        var r := [s[0]] + w;
        forall a, b | 0 <= a < b < |r| ensures r[a].key <= r[b].key {
          if a > 0 {
            assert r[a] == w[a - 1] && r[b] == w[b - 1];
          } else {
            assert r[b] == w[b - 1] && r[b] in w;
          }
        }
      }
    }
  }

  lemma {:induction false} DistinctParts(l: seq<Entry>, m: Entry, r: seq<Entry>)
    requires IdsDistinct(l + [m] + r)
    ensures IdsDistinct(l) && IdsDistinct(r)
    ensures !HasId(l, m.id) && !HasId(r, m.id)
    ensures forall id :: HasId(l, id) ==> !HasId(r, id)
  {
    var s := l + [m] + r;
    forall a, b | 0 <= a < b < |l| ensures l[a].id != l[b].id {
      assert s[a] == l[a] && s[b] == l[b];
    }
    forall a, b | 0 <= a < b < |r| ensures r[a].id != r[b].id {
      assert s[|l| + 1 + a] == r[a] && s[|l| + 1 + b] == r[b];
    }
    forall j | 0 <= j < |l| ensures l[j].id != m.id {
      assert s[j] == l[j] && s[|l|] == m;
    }
    forall j | 0 <= j < |r| ensures r[j].id != m.id {
      assert s[|l| + 1 + j] == r[j] && s[|l|] == m;
    }
    forall a, b | 0 <= a < |l| && 0 <= b < |r| ensures l[a].id != r[b].id {
      assert s[a] == l[a] && s[|l| + 1 + b] == r[b];
    }
  }

  lemma {:induction false} DelInOrder(t: Tree, id: nat)
    requires IdsDistinct(InOrder(t))
    ensures InOrder(Del(t, id)) == Without(InOrder(t), id)
  {
    match t
    case Leaf =>
    case Node(c, k, i, l, r) =>
      var m := Entry(k, i);
      var sl, sr := InOrder(l), InOrder(r);
      DistinctParts(sl, m, sr);
      WithoutAround(sl, m, sr, id);
      ContainsInOrder(l, id);
      ContainsInOrder(r, id);
      if i == id {
        WithoutAbsent(sl, id);
        WithoutAbsent(sr, id);
        assert InOrder(Del(t, id)) == sl + sr;
      } else if Contains(l, id) {
        DelInOrder(l, id);
        WithoutAbsent(sr, id);
        assert InOrder(Del(t, id)) == InOrder(Del(l, id)) + [m] + sr;
      } else {
        DelInOrder(r, id);
        WithoutAbsent(sl, id);
        assert InOrder(Del(t, id)) == sl + [m] + InOrder(Del(r, id));
      }
  }

  /** Dropping an identity from a node's in-order sequence drops it from
      either side and from the node's own entry. */
  lemma WithoutAround(sl: seq<Entry>, m: Entry, sr: seq<Entry>, id: nat)
    ensures Without(sl + [m] + sr, id) ==
      Without(sl, id) + (if m.id == id then [] else [m]) + Without(sr, id)
  {
    WithoutConcat(sl + [m], sr, id);
    WithoutConcat(sl, [m], id);
    assert [m][1..] == [];
  }

  /** remove(node) with the successor taken from the node's own right
      subtree. A node that is not in the tree leaves it unchanged, as a
      reset node's sentinel links and missing parent do in the source. */
  function Remove(t: Tree, id: nat): (r: Tree)
    ensures !Contains(t, id) ==> r == t
  {
    if !Contains(t, id) then t
    else if t.id == id && (t.left.Leaf? || t.right.Leaf?) then Blacken(Splice(t))
    else Del(t, id)
  }

  lemma {:induction false} DelAbsent(t: Tree, id: nat)
    requires !Contains(t, id)
    ensures Del(t, id) == t
  {
    if t.Node? {
      DelAbsent(t.left, id);
      DelAbsent(t.right, id);
    }
  }

  /** Removing a message from a search tree drops exactly its entry and
      keeps the others in order. */
  lemma {:induction false} RemoveKeepsOrder(t: Tree, id: nat)
    requires IsSearchTree(t) && IdsDistinct(InOrder(t))
    ensures InOrder(Remove(t, id)) == Without(InOrder(t), id)
    ensures IsSearchTree(Remove(t, id))
    ensures !Contains(Remove(t, id), id)
  {
    ContainsInOrder(t, id);
    if !Contains(t, id) {
      WithoutAbsent(InOrder(t), id);
    } else {
      DelInOrder(t, id);
    }
    WithoutKeepsSorted(InOrder(t), id);
    WithoutSubseq(InOrder(t), id);
    ContainsInOrder(Remove(t, id), id);
  }

  // --------------------------------------------- remove, as written

  /** Replaces the first node with `id` by `s`. */
  function ReplaceAt(t: Tree, id: nat, s: Tree): Tree {
    match t
    case Leaf => Leaf
    case Node(c, k, i, l, r) =>
      if i == id then s
      else if Contains(l, id) then Node(c, k, i, ReplaceAt(l, id, s), r)
      else Node(c, k, i, l, ReplaceAt(r, id, s))
  }

  function Find(t: Tree, id: nat): (n: Tree)
    requires Contains(t, id)
    ensures n.Node? && n.id == id
  {
    if t.id == id then t
    else if Contains(t.left, id) then Find(t.left, id)
    else Find(t.right, id)
  }

  /** The tree with its leftmost node replaced by that node's right child. */
  function SpliceMin(t: Tree): Tree
    requires t.Node?
  {
    ExtractMin(t).1
  }

  /** remove(node) with the splice as nc_rbtree.h writes it: when the node
      has two children the substitute is `min()` of the WHOLE tree, not of
      the node's right subtree. When that minimum is the root itself the
      root's right subtree becomes the tree and the node is reset where it
      stands. The tree has no parent links, so a later removal of such a
      reset node is not the source's. When the node lacks a child (always
      so for the least node, which is what the timeout sweep removes) the
      result is the correct removal's. */
  function RemoveAsWritten(t: Tree, id: nat): (r: Tree)
    ensures !Contains(t, id) ==> r == t
    ensures Contains(t, id) && (Find(t, id).left.Leaf? || Find(t, id).right.Leaf?) ==> r == Remove(t, id)
  {
    if !Contains(t, id) then t
    else
      var z := Find(t, id);
      if z.left.Leaf? || z.right.Leaf? then
        if t.id == id then Blacken(Splice(t)) else Del(t, id)
      else if t.left.Leaf? then
        Blacken(ReplaceAt(t.right, id, Node(Black, 0, id, Leaf, Leaf)))
      else
        var (m, t1) := ExtractMin(t);
        if Contains(t1, id) then
          var z1 := Find(t1, id);
          ReplaceAt(t1, id, Node(z.color, m.key, m.id, z1.left, z1.right))
        else t1
  }

  lemma {:induction false} DelIsReplaceAt(t: Tree, id: nat)
    requires Contains(t, id)
    ensures Del(t, id) == ReplaceAt(t, id, Splice(Find(t, id)))
  {
    if t.id != id {
      if Contains(t.left, id) { DelIsReplaceAt(t.left, id); }
      else { DelIsReplaceAt(t.right, id); }
    }
  }

  lemma {:induction false} MinHasNoLeft(t: Tree)
    requires t.Node?
    ensures Contains(t, Min(t).value.id)
    ensures t.left.Leaf? ==> Find(t, Min(t).value.id) == t
  {
    if t.left.Node? {
      MinHasNoLeft(t.left);
    }
  }

  /** In a tree with distinct identities the least node has no left
      child, so the source's removal of it is the correct one. */
  lemma {:induction false} MinNodeHasNoLeft(t: Tree)
    requires t.Node? && IdsDistinct(InOrder(t))
    ensures Contains(t, Min(t).value.id)
    ensures Find(t, Min(t).value.id).left.Leaf?
  {
    if t.left.Leaf? {
      MinHasNoLeft(t);
    } else {
      var id := Min(t.left).value.id;
      DistinctParts(InOrder(t.left), Entry(t.key, t.id), InOrder(t.right));
      MinNodeHasNoLeft(t.left);
      ContainsInOrder(t.left, id);
      assert t.id != id;
    }
  }

  /** A tree whose keys are 2, 1, 4, 3, 5 in the shape of the source's
      sweep index: removing the node of key 4 (two children) moves the
      least node 1 into its place. */
  function SampleTree(): Tree {
    Node(Black, 2, 20, Node(Black, 1, 10, Leaf, Leaf),
         Node(Black, 4, 40, Node(Red, 3, 30, Leaf, Leaf), Node(Red, 5, 50, Leaf, Leaf)))
  }

  function Keys(s: seq<Entry>): seq<int> {
    if s == [] then [] else [s[0].key] + Keys(s[1..])
  }

  lemma {:induction false} SampleTreeShape()
    ensures IsSearchTree(SampleTree()) && IdsDistinct(InOrder(SampleTree()))
    ensures Contains(SampleTree(), 40)
    ensures Find(SampleTree(), 40) == SampleTree().right
  {
    var t := SampleTree();
    assert InOrder(t.right) == [Entry(3, 30), Entry(4, 40), Entry(5, 50)];
    assert InOrder(t) == [Entry(1, 10), Entry(2, 20), Entry(3, 30), Entry(4, 40), Entry(5, 50)];
    assert !Contains(t.left, 40);
  }

  /** The source's removal of the key-4 node moves the least node between
      keys 3 and 5. */
  lemma {:induction false} SampleRemoveAsWritten()
    ensures RemoveAsWritten(SampleTree(), 40) ==
      Node(Black, 2, 20, Leaf, Node(Black, 1, 10, Node(Red, 3, 30, Leaf, Leaf), Node(Red, 5, 50, Leaf, Leaf)))
  {
    SampleTreeShape();
    var t := SampleTree();
    var n4 := t.right;
    var t1 := Node(Black, 2, 20, Leaf, n4);
    assert ExtractMin(t.left) == (Entry(1, 10), Leaf);
    assert ExtractMin(t) == (Entry(1, 10), t1);
    assert Contains(t1, 40) && Find(t1, 40) == n4;
    var moved := Node(Black, 1, 10, n4.left, n4.right);
    assert ReplaceAt(t1, 40, moved) == Node(Black, 2, 20, Leaf, moved);
  }

  lemma {:induction false} SampleRemove()
    ensures Remove(SampleTree(), 40) ==
      Node(Black, 2, 20, Node(Black, 1, 10, Leaf, Leaf), Node(Black, 5, 50, Node(Red, 3, 30, Leaf, Leaf), Leaf))
  {
    SampleTreeShape();
    var t := SampleTree();
    assert ExtractMin(t.right.right) == (Entry(5, 50), Leaf);
    assert !Contains(t.left, 40);
  }

  /** The as-written removal breaks the search order of the sample tree. */
  lemma {:induction false} RemoveAsWrittenBreaksOrder()
    ensures IsSearchTree(SampleTree()) && IdsDistinct(InOrder(SampleTree()))
    ensures Keys(InOrder(RemoveAsWritten(SampleTree(), 40))) == [2, 3, 1, 5]
    ensures !IsSearchTree(RemoveAsWritten(SampleTree(), 40))
  {
    SampleTreeShape();
    SampleRemoveAsWritten();
    var w := RemoveAsWritten(SampleTree(), 40);
    assert InOrder(w.right) == [Entry(3, 30), Entry(1, 10), Entry(5, 50)];
    assert InOrder(w) == [Entry(2, 20), Entry(3, 30), Entry(1, 10), Entry(5, 50)];
    assert InOrder(w)[1].key > InOrder(w)[2].key;
    Keys4(Entry(2, 20), Entry(3, 30), Entry(1, 10), Entry(5, 50));
  }

  /** The corrected removal keeps the sample tree in order. */
  lemma {:induction false} RemoveKeepsSampleOrder()
    ensures Keys(InOrder(Remove(SampleTree(), 40))) == [1, 2, 3, 5]
    ensures IsSearchTree(Remove(SampleTree(), 40))
  {
    SampleRemove();
    var c := Remove(SampleTree(), 40);
    assert InOrder(c.right) == [Entry(3, 30), Entry(5, 50)];
    assert InOrder(c) == [Entry(1, 10), Entry(2, 20), Entry(3, 30), Entry(5, 50)];
    Keys4(Entry(1, 10), Entry(2, 20), Entry(3, 30), Entry(5, 50));
  }

  lemma Keys4(a: Entry, b: Entry, c: Entry, d: Entry)
    ensures Keys([a, b, c, d]) == [a.key, b.key, c.key, d.key]
  {
    assert [d][1..] == [];
    assert Keys([d]) == [d.key];
    assert [c, d][1..] == [d];
    assert Keys([c, d]) == [c.key, d.key];
    assert [b, c, d][1..] == [c, d];
    assert Keys([b, c, d]) == [b.key, c.key, d.key];
    assert [a, b, c, d][1..] == [b, c, d];
  }
}
