/** NcContext and NcInstance (nc_core.h/.cpp): the connection limits a
    context derives from the descriptor limit, the failure handling of
    createContext, and the timeout sweep at the end of each turn of the
    event loop.

    The sweep walks the deadline tree from its least entry: a message
    already done or failed is dropped from the tree, a live message whose
    deadline has come is dropped and its connection closed with
    ETIMEDOUT, and the first live message still in the future ends the
    sweep. The sweep is stated first over the sorted entries and then
    over the tree of a context. */
module Core {
  import opened Common
  import opened Util
  import opened Pools
  import opened Store
  import RbTree

  // ---------------------------------------------------------- limits

  /** The limit fields of NcContext (all uint32 but the timeouts). */
  datatype Limits = Limits(maxTimeout: int, timeout: int, maxNfd: nat, maxNcconn: nat, maxNsconn: nat)

  /** calcConnections (lines 52-71). `rlimit` is the soft limit
      getrlimit reports, None when the call fails. The descriptor count is
      truncated to 32 bits and the client allowance is computed in 32-bit
      unsigned arithmetic. */
  function CalcConnections(l: Limits, rlimit: Option<nat>): (r: (int, Limits))
    requires l.maxNsconn < Two32
    ensures rlimit.None? <==> r.0 == Error
    ensures rlimit.None? ==> r.1 == l
    ensures rlimit.Some? ==> r.0 == Ok && r.1 == l.(maxNfd := r.1.maxNfd, maxNcconn := r.1.maxNcconn)
    ensures rlimit.Some? ==> r.1.maxNfd < Two32 && r.1.maxNcconn < Two32
    ensures rlimit.Some? && l.maxNsconn + ReservedFds <= r.1.maxNfd ==>
      r.1.maxNcconn + l.maxNsconn + ReservedFds == r.1.maxNfd
    ensures rlimit.Some? ==> (r.1.maxNcconn + l.maxNsconn + ReservedFds) % Two32 == r.1.maxNfd
  {
    if rlimit.None? then (Error, l)
    else
      var nfd := U32(rlimit.value);
      var c := U32(nfd - l.maxNsconn - ReservedFds);
      ModShift(c, nfd - l.maxNsconn - ReservedFds, l.maxNsconn + ReservedFds);
      (Ok, l.(maxNfd := nfd, maxNcconn := c))
  }

  lemma ModShift(r: int, x: int, d: int)
    requires (r - x) % Two32 == 0 && 0 <= x + d < Two32
    ensures (r + d) % Two32 == x + d
  {
    var q := (r - x) / Two32;
    assert r - x == q * Two32;
    assert r + d == q * Two32 + (x + d);
  }

  /** A soft limit below the reserve wraps the client allowance to a
      value near 2^32: with 16 descriptors and no server connections
      4294967280 clients are allowed. */
  lemma CalcConnectionsWraps()
    ensures CalcConnections(Limits(0, 0, 0, 0, 0), Some(16)).1.maxNcconn == 4294967280
  {
  }

  /** A context: its identity and its limits. */
  datatype Context = Context(id: nat, limits: Limits)

  /** createContext (lines 73-119). The identity is drawn first; the
      timeouts start at the instance's stats interval and the counts at 0;
      the context is discarded (None) as soon as calcConnections, the
      server connections or the proxy connection fail. `serverStatus` and
      `proxyStatus` are the outcomes of createServerConn and
      createProxyConn, which are not part of this model. */
  function CreateContext(ids: IdGen, statsInterval: int, rlimit: Option<nat>, serverStatus: int, proxyStatus: int)
    : (r: (IdGen, Option<Context>))
    ensures r.0 == NextId(ids).1
    ensures r.1.Some? <==> rlimit.Some? && serverStatus == Ok && proxyStatus == Ok
    ensures r.1.Some? ==> var l := r.1.value.limits;
      r.1.value.id == NextId(ids).0 &&
      l.maxTimeout == statsInterval && l.timeout == statsInterval &&
      l.maxNsconn == 0 && l.maxNfd == U32(rlimit.value) && l.maxNcconn == U32(l.maxNfd - ReservedFds)
  {
    var (id, ids') := NextId(ids);
    var l := Limits(statsInterval, statsInterval, 0, 0, 0);
    var (status, l') := CalcConnections(l, rlimit);
    if status != Ok then (ids', None)
    else if serverStatus != Ok then (ids', None)
    else if proxyStatus != Ok then (ids', None)
    else (ids', Some(Context(id, l')))
  }

  // ----------------------------------------------------- the sweep

  /** A message the sweep drops without closing anything: done or failed. */
  predicate Dead(m: Msg) { m.error || m.done }

  /** Every indexed message exists and carries its connection. */
  ghost predicate Indexed(msgs: map<MsgRef, Msg>, s: seq<RbTree.Entry>) {
    forall i :: 0 <= i < |s| ==> s[i].id in msgs && msgs[s[i].id].data.Some?
  }

  lemma IndexedTail(msgs: map<MsgRef, Msg>, s: seq<RbTree.Entry>)
    requires Indexed(msgs, s) && s != []
    ensures Indexed(msgs, s[1..])
  {
    forall i | 0 <= i < |s| - 1
      ensures s[1..][i].id in msgs && msgs[s[1..][i].id].data.Some?
    {
      assert s[1..][i] == s[i + 1];
    }
  }

  lemma IndexedPrefix(msgs: map<MsgRef, Msg>, s: seq<RbTree.Entry>, k: nat)
    requires Indexed(msgs, s) && k <= |s|
    ensures Indexed(msgs, s[..k])
  {
    forall i | 0 <= i < k
      ensures s[..k][i].id in msgs && msgs[s[..k][i].id].data.Some?
    {
      assert s[..k][i] == s[i];
    }
  }

  /** What the sweep leaves: the entries still indexed and the
      connections closed with ETIMEDOUT, in order. */
  datatype Swept = Swept(left: seq<RbTree.Entry>, expired: seq<ConnRef>)

  /** The sweep (lines 134-170) over the entries in key order, with one
      reading `now` of the clock. */
  function SweepEntries(s: seq<RbTree.Entry>, msgs: map<MsgRef, Msg>, now: int): (r: Swept)
    requires Indexed(msgs, s)
    ensures |r.left| <= |s| && r.left == s[|s| - |r.left|..]
    ensures r.left != [] ==> !Dead(msgs[r.left[0].id]) && now < r.left[0].key
    ensures |r.expired| <= |s| - |r.left|
    decreases |s|
  {
    if s == [] then Swept([], [])
    else
      IndexedTail(msgs, s);
      var m := msgs[s[0].id];
      if Dead(m) then SweepEntries(s[1..], msgs, now)
      else if now < s[0].key then Swept(s, [])
      else
        var r := SweepEntries(s[1..], msgs, now);
        Swept(r.left, [m.data.value] + r.expired)
  }

  /** An entry the sweep takes out: its message is dead or its deadline
      has come. */
  ghost predicate Gone(msgs: map<MsgRef, Msg>, now: int, e: RbTree.Entry)
    requires e.id in msgs
  {
    Dead(msgs[e.id]) || e.key <= now
  }

  /** The connections of the live messages among `s`, in order. */
  function LiveConns(s: seq<RbTree.Entry>, msgs: map<MsgRef, Msg>): (r: seq<ConnRef>)
    requires Indexed(msgs, s)
    ensures |r| <= |s|
    decreases |s|
  {
    if s == [] then []
    else
      IndexedTail(msgs, s);
      var m := msgs[s[0].id];
      (if Dead(m) then [] else [m.data.value]) + LiveConns(s[1..], msgs)
  }

  /** The first `k` entries of `s` are gone and the next one, if any, is
      not: `k` is the length of the longest run of gone entries. */
  ghost predicate GoneRun(msgs: map<MsgRef, Msg>, now: int, s: seq<RbTree.Entry>, k: nat)
    requires Indexed(msgs, s) && k <= |s|
  {
    (forall j :: 0 <= j < k ==> Gone(msgs, now, s[j])) && (k < |s| ==> !Gone(msgs, now, s[k]))
  }

  /** The sweep takes out exactly the longest run of gone entries at the
      front, and closes the connections of the live ones among them. */
  lemma {:induction false} SweepTakesGoneRun(s: seq<RbTree.Entry>, msgs: map<MsgRef, Msg>, now: int)
    requires Indexed(msgs, s)
    ensures var r := SweepEntries(s, msgs, now);
      var k := |s| - |r.left|;
      GoneRun(msgs, now, s, k) && r.expired == LiveConns(s[..k], msgs)
    decreases |s|
  {
    if s != [] && Gone(msgs, now, s[0]) {
      IndexedTail(msgs, s);
      SweepTakesGoneRun(s[1..], msgs, now);
      GoneStepCombine(s, msgs, now);
    } else {
      NotGoneStops(s, msgs, now);
    }
  }

  /** A sweep whose first entry is not gone takes nothing out. */
  lemma NotGoneStops(s: seq<RbTree.Entry>, msgs: map<MsgRef, Msg>, now: int)
    requires Indexed(msgs, s) && (s != [] ==> !Gone(msgs, now, s[0]))
    ensures var r := SweepEntries(s, msgs, now);
      r.left == s && r.expired == [] && GoneRun(msgs, now, s, 0) && LiveConns(s[..0], msgs) == []
  {
    assert s[..0] == [];
  }

  /** The step of SweepTakesGoneRun: what holds of the tail's sweep holds,
      one entry longer, of the sweep of `s`. */
  lemma GoneStepCombine(s: seq<RbTree.Entry>, msgs: map<MsgRef, Msg>, now: int)
    requires Indexed(msgs, s) && s != [] && Gone(msgs, now, s[0]) && Indexed(msgs, s[1..])
    requires var r' := SweepEntries(s[1..], msgs, now);
      var k' := |s| - 1 - |r'.left|;
      GoneRun(msgs, now, s[1..], k') && r'.expired == LiveConns(s[1..][..k'], msgs)
    ensures var r := SweepEntries(s, msgs, now);
      var k := |s| - |r.left|;
      GoneRun(msgs, now, s, k) && r.expired == LiveConns(s[..k], msgs)
  {
    var r := SweepEntries(s, msgs, now);
    var r' := SweepEntries(s[1..], msgs, now);
    var k := |s| - |r.left|;
    assert r.left == r'.left && k >= 1;
    IndexedPrefix(msgs, s, k);
    SweepStepExpired(s, msgs, now, r, r');
    GoneShift(s, msgs, now, k);
  }

  /** The run of gone entries of `s` is its gone head followed by the run
      of its tail. */
  lemma GoneShift(s: seq<RbTree.Entry>, msgs: map<MsgRef, Msg>, now: int, k: nat)
    requires Indexed(msgs, s) && s != [] && Gone(msgs, now, s[0]) && 1 <= k <= |s|
    requires Indexed(msgs, s[1..]) && GoneRun(msgs, now, s[1..], k - 1)
    ensures GoneRun(msgs, now, s, k)
  {
    forall j | 0 <= j < k
      ensures Gone(msgs, now, s[j])
    {
      if j > 0 {
        assert s[j] == s[1..][j - 1];
      }
    }
    if k < |s| {
      assert s[k] == s[1..][k - 1];
    }
  }

  lemma SweepStepExpired(s: seq<RbTree.Entry>, msgs: map<MsgRef, Msg>, now: int, r: Swept, r': Swept)
    requires Indexed(msgs, s) && s != [] && Gone(msgs, now, s[0]) && Indexed(msgs, s[1..])
    requires r == SweepEntries(s, msgs, now) && r' == SweepEntries(s[1..], msgs, now)
    requires r'.expired == LiveConns(s[1..][..|s| - 1 - |r'.left|], msgs)
    ensures r.expired == LiveConns(s[..|s| - |r.left|], msgs)
  {
    var m := msgs[s[0].id];
    var k := |s| - |r.left|;
    assert r.left == r'.left;
    assert r.expired == (if Dead(m) then [] else [m.data.value]) + r'.expired;
    var p := s[..k];
    assert p[1..] == s[1..][..k - 1] && p[0] == s[0];
    IndexedTail(msgs, p);
    assert LiveConns(p, msgs) == (if Dead(m) then [] else [m.data.value]) + LiveConns(p[1..], msgs);
  }

  /** Over entries in key order nothing due is left behind: every entry
      still indexed has its deadline after `now`. */
  lemma SweepLeavesFuture(s: seq<RbTree.Entry>, msgs: map<MsgRef, Msg>, now: int)
    requires Indexed(msgs, s) && RbTree.Sorted(s)
    ensures forall e :: e in SweepEntries(s, msgs, now).left ==> now < e.key
  {
    var r := SweepEntries(s, msgs, now);
    if r.left != [] {
      SortedSuffixAbove(s, |s| - |r.left|, now);
    }
  }

  /** In key order everything from an entry due after `now` on is due
      after `now`. */
  lemma SortedSuffixAbove(s: seq<RbTree.Entry>, k: nat, now: int)
    requires RbTree.Sorted(s) && k < |s| && now < s[k].key
    ensures forall e :: e in s[k..] ==> now < e.key
  {
    forall e | e in s[k..]
      ensures now < e.key
    {
      var j :| 0 <= j < |s| - k && s[k..][j] == e;
      assert s[k..][j] == s[k + j];
    }
  }

  /** Two message maps that agree on the indexed messages sweep alike. */
  lemma {:induction false} SweepFrame(s: seq<RbTree.Entry>, msgs: map<MsgRef, Msg>, msgs': map<MsgRef, Msg>,
                                      now: int)
    requires Indexed(msgs, s)
    requires forall i :: 0 <= i < |s| ==> s[i].id in msgs' && msgs'[s[i].id] == msgs[s[i].id]
    ensures Indexed(msgs', s)
    ensures SweepEntries(s, msgs', now) == SweepEntries(s, msgs, now)
    decreases |s|
  {
    if s != [] {
      IndexedTail(msgs, s);
      SweepFrame(s[1..], msgs, msgs', now);
    }
  }

  // ------------------------------------------------ the sweep, on a tree

  /** The deadline tree of a context orders its entries, holds each
      message once, and indexes only messages that exist and carry their
      connection. */
  ghost predicate TreeOk(w: World) {
    RbTree.IsSearchTree(w.tree) && RbTree.IdsDistinct(RbTree.InOrder(w.tree)) &&
    Indexed(w.msgs, RbTree.InOrder(w.tree))
  }

  /** Removing the least entry leaves the other entries, in order, and
      their messages as they were. */
  lemma UntimedMin(w: World)
    requires TreeOk(w) && w.tree.Node?
    ensures var s := RbTree.InOrder(w.tree);
      var id := RbTree.Min(w.tree).value.id;
      var w' := Untimed(w, id);
      id == s[0].id && id in w.msgs && TreeOk(w') && RbTree.InOrder(w'.tree) == s[1..] &&
      w'.msgs.Keys == w.msgs.Keys &&
      forall i :: 0 <= i < |s| - 1 ==> w'.msgs[s[1..][i].id] == w.msgs[s[1..][i].id]
  {
    var s := RbTree.InOrder(w.tree);
    var id := s[0].id;
    MinTreeRemoved(w.tree);
    var w' := Untimed(w, id);
    assert RbTree.InOrder(w'.tree) == s[1..];
    forall i | 0 <= i < |s| - 1
      ensures s[1..][i].id != id && s[1..][i].id in w.msgs && w.msgs[s[1..][i].id].data.Some?
    {
      assert s[1..][i] == s[i + 1];
    }
  }

  /** The tree part of removing the least entry: the source's splice is
      the correct one there, and the rest stays a search tree with
      distinct identities, without the removed one. */
  lemma MinTreeRemoved(t: RbTree.Tree)
    requires RbTree.IsSearchTree(t) && RbTree.IdsDistinct(RbTree.InOrder(t)) && t.Node?
    ensures var s := RbTree.InOrder(t);
      var t' := RbTree.RemoveAsWritten(t, s[0].id);
      RbTree.Min(t).value.id == s[0].id && RbTree.Contains(t, s[0].id) &&
      RbTree.InOrder(t') == s[1..] && RbTree.IsSearchTree(t') && RbTree.IdsDistinct(s[1..]) &&
      !RbTree.HasId(s[1..], s[0].id)
  {
    var s := RbTree.InOrder(t);
    var id := s[0].id;
    RbTree.MinNodeHasNoLeft(t);
    RbTree.RemoveKeepsOrder(t, id);
    FrontRemoved(s);
  }

  /** Dropping the first entry of a sequence with distinct identities is
      dropping every entry with its identity. */
  lemma FrontRemoved(s: seq<RbTree.Entry>)
    requires RbTree.IdsDistinct(s) && s != []
    ensures RbTree.Without(s, s[0].id) == s[1..] && RbTree.IdsDistinct(s[1..]) && !RbTree.HasId(s[1..], s[0].id)
  {
    var id := s[0].id;
    assert !RbTree.HasId(s[1..], id) by {
      forall j | 0 <= j < |s[1..]|
        ensures s[1..][j].id != id
      {
        assert s[1..][j] == s[j + 1];
      }
    }
    RbTree.WithoutAbsent(s[1..], id);
    assert RbTree.IdsDistinct(s[1..]) by {
      forall a, b | 0 <= a < b < |s[1..]|
        ensures s[1..][a].id != s[1..][b].id
      {
        assert s[1..][a] == s[a + 1] && s[1..][b] == s[b + 1];
      }
    }
  }

  /** The sweep over a context's deadline tree: take the least entry,
      drop it or stop, and go on with the rest. */
  function SweepTree(w: World, now: int): (r: (World, seq<ConnRef>))
    requires TreeOk(w)
    ensures r.0 == w.(tree := r.0.tree, msgs := r.0.msgs) && r.0.msgs.Keys == w.msgs.Keys
    ensures TreeOk(r.0)
    decreases |RbTree.InOrder(w.tree)|
  {
    if w.tree.Leaf? then (w, [])
    else
      var e := RbTree.Min(w.tree).value;
      UntimedMin(w);
      var x := w.msgs[e.id];
      if Dead(x) then SweepTree(Untimed(w, e.id), now)
      else if now < e.key then (w, [])
      else
        var r := SweepTree(Untimed(w, e.id), now);
        (r.0, [x.data.value] + r.1)
  }

  /** The sweep over the tree is the sweep over its sorted entries: what
      it leaves indexed and the connections it closes agree. */
  lemma {:induction false} SweepTreeMatches(w: World, now: int)
    requires TreeOk(w)
    ensures var r := SweepTree(w, now);
      var e := SweepEntries(RbTree.InOrder(w.tree), w.msgs, now);
      RbTree.InOrder(r.0.tree) == e.left && r.1 == e.expired
    decreases |RbTree.InOrder(w.tree)|, 1
  {
    var s := RbTree.InOrder(w.tree);
    if w.tree.Node? {
      var e := RbTree.Min(w.tree).value;
      UntimedMin(w);
      if Dead(w.msgs[e.id]) || e.key <= now {
        SweepTreeStep(w, now);
      }
    }
  }

  lemma {:induction false} SweepTreeStep(w: World, now: int)
    requires TreeOk(w) && w.tree.Node?
    requires var e := RbTree.Min(w.tree).value; e.id in w.msgs && (Dead(w.msgs[e.id]) || e.key <= now)
    ensures var r := SweepTree(w, now);
      var e := SweepEntries(RbTree.InOrder(w.tree), w.msgs, now);
      RbTree.InOrder(r.0.tree) == e.left && r.1 == e.expired
    decreases |RbTree.InOrder(w.tree)|, 0
  {
    var s := RbTree.InOrder(w.tree);
    var e := RbTree.Min(w.tree).value;
    var x := w.msgs[e.id];
    UntimedMin(w);
    var w' := Untimed(w, e.id);
    IndexedTail(w.msgs, s);
    SweepFrame(s[1..], w.msgs, w'.msgs, now);
    SweepTreeMatches(w', now);
    var rt := SweepTree(w', now);
    var re := SweepEntries(s[1..], w.msgs, now);
    assert s[0] == e;
    if Dead(x) {
      assert SweepTree(w, now) == rt;
      assert SweepEntries(s, w.msgs, now) == re;
    } else {
      assert !(now < e.key);
      assert SweepTree(w, now) == (rt.0, [x.data.value] + rt.1);
      assert SweepEntries(s, w.msgs, now) == Swept(re.left, [x.data.value] + re.expired);
    }
  }

  /** The end of one turn of NcInstance::loop (lines 121-175): a failed
      wait is returned as it is and nothing is swept; otherwise the sweep
      runs and the turn reports success. `nsd` is the wait's result and
      `now` the clock. The result is the status, the context and the
      connections to close with ETIMEDOUT. */
  function Loop(w: World, nsd: int, now: int): (r: (int, World, seq<ConnRef>))
    requires TreeOk(w)
    ensures nsd < 0 ==> r == (nsd, w, [])
    ensures nsd >= 0 ==> r.0 == Ok && TreeOk(r.1) && r.1 == w.(tree := r.1.tree, msgs := r.1.msgs)
    ensures nsd >= 0 ==> forall e :: e in RbTree.InOrder(r.1.tree) ==> now < e.key
  {
    if nsd < 0 then (nsd, w, [])
    else
      var (w', expired) := SweepTree(w, now);
      SweepTreeMatches(w, now);
      SweepLeavesFuture(RbTree.InOrder(w.tree), w.msgs, now);
      (Ok, w', expired)
  }
}
