/** The continuum rebuilds of nc_hashkit.cpp: random_update and
    modula_update. Both decide which servers are live, record the earliest
    time an ejected server may come back, and refill the first slots of the
    continuum. The clock is the input `now` (negative for a failed read).
    The continuum is an unbounded sequence whose first slots are
    overwritten by the fill. The source's `nserver_continuum` capacity,
    the placement new into the existing continuum pointer, and a fill
    running past the end of that memory are not modelled. */
module Hashkit {
  import opened Common
  import opened Pools

  /** A server takes part in the continuum: always without auto-ejection,
      otherwise once its retry time has come. */
  predicate Live(auto: bool, s: Server, now: int) {
    !auto || s.nextRetry <= now
  }

  /** The liveness pass: with auto-ejection, live servers have their retry
      time cleared; nothing else changes. */
  function Refresh(ss: seq<Server>, auto: bool, now: int): (r: seq<Server>)
    ensures |r| == |ss|
    ensures forall i :: 0 <= i < |ss| ==>
              r[i] == if auto && ss[i].nextRetry <= now then ss[i].(nextRetry := 0) else ss[i]
  {
    seq(|ss|, i requires 0 <= i < |ss| =>
      if auto && ss[i].nextRetry <= now then ss[i].(nextRetry := 0) else ss[i])
  }

  /** With a working clock the liveness pass does not change who is live. */
  lemma RefreshKeepsLiveness(ss: seq<Server>, auto: bool, now: int)
    requires now >= 0
    ensures forall i :: 0 <= i < |ss| ==> (Live(auto, Refresh(ss, auto, now)[i], now) <==> Live(auto, ss[i], now))
  {
  }

  /** The number of live servers. */
  function LiveCount(ss: seq<Server>, auto: bool, now: int): (n: nat)
    ensures n <= |ss|
    ensures !auto ==> n == |ss|
  {
    if ss == [] then 0 else (if Live(auto, ss[0], now) then 1 else 0) + LiveCount(ss[1..], auto, now)
  }

  lemma {:induction false} LiveCountRefresh(ss: seq<Server>, auto: bool, now: int)
    requires now >= 0
    ensures LiveCount(Refresh(ss, auto, now), auto, now) == LiveCount(ss, auto, now)
  {
    if ss != [] {
      assert Refresh(ss, auto, now)[1..] == Refresh(ss[1..], auto, now);
      LiveCountRefresh(ss[1..], auto, now);
    }
  }

  /** The sum of the weights of the live servers. */
  function LiveWeight(ss: seq<Server>, auto: bool, now: int): nat {
    if ss == [] then 0 else (if Live(auto, ss[0], now) then ss[0].weight else 0) + LiveWeight(ss[1..], auto, now)
  }

  /** The next_rebuild pass, with `acc` the value so far: each ejected
      server lowers it to its retry time when it is still 0 or later. */
  function RebuildFrom(ss: seq<Server>, auto: bool, now: int, acc: int): (r: int)
    ensures !auto ==> r == acc
    ensures r != acc ==> r > now
  {
    if ss == [] then acc
    else
      var s := ss[0];
      var acc' := if auto && s.nextRetry > now && (acc == 0 || s.nextRetry < acc) then s.nextRetry else acc;
      RebuildFrom(ss[1..], auto, now, acc')
  }

  predicate Ejected(auto: bool, s: Server, now: int) {
    auto && s.nextRetry > now
  }

  lemma {:induction false} RebuildFromIsMin(ss: seq<Server>, auto: bool, now: int, acc: int)
    requires now >= 0 && acc >= 0
    ensures var r := RebuildFrom(ss, auto, now, acc);
      r >= 0 &&
      (r == 0 <==> acc == 0 && forall i :: 0 <= i < |ss| ==> !Ejected(auto, ss[i], now)) &&
      (acc != 0 ==> r <= acc) &&
      (r != acc ==> exists i :: 0 <= i < |ss| && Ejected(auto, ss[i], now) && ss[i].nextRetry == r) &&
      (forall i :: 0 <= i < |ss| && Ejected(auto, ss[i], now) ==> r <= ss[i].nextRetry)
  {
    if ss != [] {
      var s := ss[0];
      var acc' := if auto && s.nextRetry > now && (acc == 0 || s.nextRetry < acc) then s.nextRetry else acc;
      RebuildFromIsMin(ss[1..], auto, now, acc');
      var r := RebuildFrom(ss, auto, now, acc);
      assert r == RebuildFrom(ss[1..], auto, now, acc');
      forall i | 0 < i < |ss| ensures ss[i] == ss[1..][i - 1] {
      }
      if r != acc && r == acc' {
        assert Ejected(auto, ss[0], now) && ss[0].nextRetry == r;
      }
      if r != acc' {
        var j :| 0 <= j < |ss[1..]| && Ejected(auto, ss[1..][j], now) && ss[1..][j].nextRetry == r;
        assert ss[j + 1] == ss[1..][j];
      }
    }
  }

  /** next_rebuild is 0 when no server is ejected, and otherwise the
      earliest retry time among the ejected servers. */
  lemma NextRebuildIsEarliestRetry(ss: seq<Server>, auto: bool, now: int)
    requires now >= 0
    ensures var r := RebuildFrom(ss, auto, now, 0);
      (r == 0 <==> forall i :: 0 <= i < |ss| ==> !Ejected(auto, ss[i], now)) &&
      (r != 0 ==> exists i :: 0 <= i < |ss| && Ejected(auto, ss[i], now) && ss[i].nextRetry == r) &&
      (forall i :: 0 <= i < |ss| && Ejected(auto, ss[i], now) ==> r <= ss[i].nextRetry)
  {
    RebuildFromIsMin(ss, auto, now, 0);
  }

  /** The random fill: one slot per live server, holding the server's
      index (offset by `i0`) and the value 0. */
  function RandomFill(ss: seq<Server>, auto: bool, now: int, i0: nat): (r: seq<Continuum>)
    ensures |r| == LiveCount(ss, auto, now)
  {
    if ss == [] then []
    else
      (if Live(auto, ss[0], now) then [Continuum(i0, 0)] else []) + RandomFill(ss[1..], auto, now, i0 + 1)
  }

  /** Every slot of the random fill has value 0 and names a live server. */
  lemma {:induction false} RandomFillShape(ss: seq<Server>, auto: bool, now: int, i0: nat)
    ensures FillShaped(RandomFill(ss, auto, now, i0), ss, auto, now, i0)
  {
    if ss != [] {
      var head := if Live(auto, ss[0], now) then [Continuum(i0, 0)] else [];
      var rest := RandomFill(ss[1..], auto, now, i0 + 1);
      var r := RandomFill(ss, auto, now, i0);
      assert r == head + rest;
      RandomFillShape(ss[1..], auto, now, i0 + 1);
      assert FillShaped(rest, ss[1..], auto, now, i0 + 1);
      forall k | 0 <= k < |r|
        ensures r[k].value == 0 && i0 <= r[k].index < i0 + |ss| && Live(auto, ss[r[k].index - i0], now)
      {
        if k >= |head| {
          var e := rest[k - |head|];
          assert r[k] == e;
          assert ss[e.index - i0] == ss[1..][e.index - (i0 + 1)];
        }
      }
    }
  }

  /** The slot indices of the random fill strictly increase, from `i0` on. */
  lemma {:induction false} RandomFillAscending(ss: seq<Server>, auto: bool, now: int, i0: nat)
    ensures Ascending(RandomFill(ss, auto, now, i0))
    ensures forall k :: 0 <= k < |RandomFill(ss, auto, now, i0)| ==> RandomFill(ss, auto, now, i0)[k].index >= i0
  {
    if ss != [] {
      var head := if Live(auto, ss[0], now) then [Continuum(i0, 0)] else [];
      var rest := RandomFill(ss[1..], auto, now, i0 + 1);
      var r := RandomFill(ss, auto, now, i0);
      assert r == head + rest;
      RandomFillAscending(ss[1..], auto, now, i0 + 1);
      forall k | 0 <= k < |r| ensures r[k].index >= i0 {
        if k >= |head| {
          assert r[k] == rest[k - |head|];
        }
      }
      forall a, b | 0 <= a < b < |r| ensures r[a].index < r[b].index {
        assert r[b] == rest[b - |head|];
        if a >= |head| {
          assert r[a] == rest[a - |head|];
        }
      }
    }
  }

  /** Slot indices strictly increase. */
  predicate Ascending(r: seq<Continuum>) {
    forall a, b :: 0 <= a < b < |r| ==> r[a].index < r[b].index
  }

  /** Every live server has a slot in the random fill. */
  lemma {:induction false} RandomFillCoversLive(ss: seq<Server>, auto: bool, now: int, i0: nat, j: nat)
    requires j < |ss| && Live(auto, ss[j], now)
    ensures Continuum(i0 + j, 0) in RandomFill(ss, auto, now, i0)
  {
    if j > 0 {
      assert ss[1..][j - 1] == ss[j];
      RandomFillCoversLive(ss[1..], auto, now, i0 + 1, j - 1);
    }
  }

  /** The modula fill: each live server takes as many consecutive slots
      as its weight, all holding its index and the value 0. */
  function ModulaFill(ss: seq<Server>, auto: bool, now: int, i0: nat): (r: seq<Continuum>)
    ensures |r| == LiveWeight(ss, auto, now)
  {
    if ss == [] then []
    else
      (if Live(auto, ss[0], now) then seq(ss[0].weight, _ => Continuum(i0, 0)) else []) +
      ModulaFill(ss[1..], auto, now, i0 + 1)
  }

  /** Every slot has value 0 and names a live server of `ss`, whose
      first server has index `i0`. */
  predicate FillShaped(r: seq<Continuum>, ss: seq<Server>, auto: bool, now: int, i0: nat) {
    forall k :: 0 <= k < |r| ==>
      r[k].value == 0 && i0 <= r[k].index < i0 + |ss| && Live(auto, ss[r[k].index - i0], now)
  }

  /** Every slot of the modula fill has value 0 and names a live server. */
  lemma {:induction false} ModulaFillShape(ss: seq<Server>, auto: bool, now: int, i0: nat)
    ensures FillShaped(ModulaFill(ss, auto, now, i0), ss, auto, now, i0)
  {
    if ss != [] {
      var head := if Live(auto, ss[0], now) then seq(ss[0].weight, _ => Continuum(i0, 0)) else [];
      var rest := ModulaFill(ss[1..], auto, now, i0 + 1);
      var r := ModulaFill(ss, auto, now, i0);
      assert r == head + rest;
      ModulaFillShape(ss[1..], auto, now, i0 + 1);
      assert FillShaped(rest, ss[1..], auto, now, i0 + 1);
      forall k | 0 <= k < |r|
        ensures r[k].value == 0 && i0 <= r[k].index < i0 + |ss| && Live(auto, ss[r[k].index - i0], now)
      {
        if k >= |head| {
          var e := rest[k - |head|];
          assert r[k] == e;
          assert ss[e.index - i0] == ss[1..][e.index - (i0 + 1)];
        }
      }
    }
  }

  /** How many slots hold server index `x`. */
  function Slots(r: seq<Continuum>, x: nat): nat {
    if r == [] then 0 else (if r[0].index == x then 1 else 0) + Slots(r[1..], x)
  }

  lemma {:induction false} SlotsConcat(a: seq<Continuum>, b: seq<Continuum>, x: nat)
    ensures Slots(a + b, x) == Slots(a, x) + Slots(b, x)
  {
    if a == [] {
      assert a + b == b;
    } else {
      assert (a + b)[1..] == a[1..] + b;
      SlotsConcat(a[1..], b, x);
    }
  }

  lemma {:induction false} SlotsRun(n: nat, i: nat, x: nat)
    ensures Slots(seq(n, _ => Continuum(i, 0)), x) == if i == x then n else 0
  {
    if n > 0 {
      assert seq(n, _ => Continuum(i, 0))[1..] == seq(n - 1, _ => Continuum(i, 0));
      SlotsRun(n - 1, i, x);
    }
  }

  lemma {:induction false} SlotsAbsent(r: seq<Continuum>, x: nat)
    requires forall k :: 0 <= k < |r| ==> r[k].index != x
    ensures Slots(r, x) == 0
  {
    if r != [] {
      SlotsAbsent(r[1..], x);
    }
  }

  /** In the modula fill a server owns exactly `weight` slots when it is
      live and none when it is ejected; so a live server of weight 0 gets
      no slot at all. */
  lemma {:induction false} ModulaSlotsPerServer(ss: seq<Server>, auto: bool, now: int, i0: nat, j: nat)
    requires j < |ss|
    ensures Slots(ModulaFill(ss, auto, now, i0), i0 + j) == if Live(auto, ss[j], now) then ss[j].weight else 0
  {
    var x := i0 + j;
    var want := if Live(auto, ss[j], now) then ss[j].weight else 0;
    var head := if Live(auto, ss[0], now) then seq(ss[0].weight, _ => Continuum(i0, 0)) else [];
    var rest := ModulaFill(ss[1..], auto, now, i0 + 1);
    assert ModulaFill(ss, auto, now, i0) == head + rest;
    SlotsConcat(head, rest, x);
    if Live(auto, ss[0], now) {
      SlotsRun(ss[0].weight, i0, x);
    } else {
      assert Slots(head, x) == 0;
    }
    if j == 0 {
      ModulaFillShape(ss[1..], auto, now, i0 + 1);
      assert FillShaped(rest, ss[1..], auto, now, i0 + 1);
      SlotsAbsent(rest, i0);
      assert Slots(head, x) == want && Slots(rest, x) == 0;
    } else {
      var t := ss[1..];
      assert t[j - 1] == ss[j];
      ModulaSlotsPerServer(t, auto, now, i0 + 1, j - 1);
      assert (i0 + 1) + (j - 1) == x;
      assert Slots(rest, x) == want;
      assert Slots(head, x) == 0;
    }
  }

  /** The continuum after a fill: the filled slots first, then whatever
      the old continuum held beyond them. */
  function Overlay(fill: seq<Continuum>, prev: seq<Continuum>): (r: seq<Continuum>)
    ensures |r| == if |prev| > |fill| then |prev| else |fill|
    ensures r[..|fill|] == fill
  {
    fill + (if |prev| > |fill| then prev[|fill|..] else [])
  }

  /** The pool after the liveness pass. */
  function Surveyed(p: ServerPool, now: int): (r: ServerPool)
    ensures r.servers == Refresh(p.servers, p.autoEjectHosts, now)
    ensures r.nlive == LiveCount(p.servers, p.autoEjectHosts, now)
    ensures r.nextRebuild == RebuildFrom(p.servers, p.autoEjectHosts, now, 0)
    ensures r.continuum == p.continuum && r.ncontinuum == p.ncontinuum
  {
    var auto := p.autoEjectHosts;
    p.(servers := Refresh(p.servers, auto, now),
       nlive := LiveCount(p.servers, auto, now),
       nextRebuild := RebuildFrom(p.servers, auto, now, 0))
  }

  /** random_update. A failed clock read returns ERROR with the pool
      untouched. Otherwise the liveness pass runs; with no live server the
      continuum is left as it was; else the live servers fill the first
      slots, one each, and ncontinuum is their number. */
  function RandomUpdate(p: ServerPool, now: int): (r: (int, ServerPool))
    ensures now < 0 ==> r == (Error, p)
    ensures now >= 0 ==> r.0 == Ok
    ensures now >= 0 && LiveCount(p.servers, p.autoEjectHosts, now) == 0 ==> r.1 == Surveyed(p, now)
    ensures now >= 0 && LiveCount(p.servers, p.autoEjectHosts, now) > 0 ==>
      var q := Surveyed(p, now);
      var fill := RandomFill(q.servers, p.autoEjectHosts, now, 0);
      r.1 == q.(continuum := Overlay(fill, p.continuum), ncontinuum := U32(|fill|))
  {
    if now < 0 then (Error, p)
    else
      var q := Surveyed(p, now);
      if q.nlive == 0 then (Ok, q)
      else
        var fill := RandomFill(q.servers, p.autoEjectHosts, now, 0);
        (Ok, q.(continuum := Overlay(fill, p.continuum), ncontinuum := U32(|fill|)))
  }

  /** After a random rebuild with live servers, the first ncontinuum slots
      hold each live server's index exactly once, in ascending order, all
      with value 0, and ncontinuum is the live count. */
  lemma RandomUpdateFillsLiveServers(p: ServerPool, now: int)
    requires now >= 0 && LiveCount(p.servers, p.autoEjectHosts, now) > 0
    requires |p.servers| < Two32
    ensures var q := RandomUpdate(p, now).1;
      var auto := p.autoEjectHosts;
      q.ncontinuum == q.nlive == LiveCount(p.servers, auto, now) &&
      (forall k :: 0 <= k < q.ncontinuum ==>
         q.continuum[k].value == 0 && q.continuum[k].index < |p.servers| &&
         Live(auto, p.servers[q.continuum[k].index], now)) &&
      (forall a, b :: 0 <= a < b < q.ncontinuum ==> q.continuum[a].index < q.continuum[b].index) &&
      (forall j :: 0 <= j < |p.servers| && Live(auto, p.servers[j], now) ==>
         Continuum(j, 0) in q.continuum[..q.ncontinuum])
  {
    var auto := p.autoEjectHosts;
    var ss := Refresh(p.servers, auto, now);
    RefreshKeepsLiveness(p.servers, auto, now);
    LiveCountRefresh(p.servers, auto, now);
    var fill := RandomFill(ss, auto, now, 0);
    RandomFillShape(ss, auto, now, 0);
    RandomFillAscending(ss, auto, now, 0);
    assert FillShaped(fill, ss, auto, now, 0) && Ascending(fill);
    var q := RandomUpdate(p, now).1;
    assert q.continuum == Overlay(fill, p.continuum) && q.ncontinuum == |fill|;
    assert q.nlive == LiveCount(p.servers, auto, now);
    var c := q.continuum[..q.ncontinuum];
    assert c == fill;
    forall k | 0 <= k < q.ncontinuum
      ensures q.continuum[k].value == 0 && q.continuum[k].index < |p.servers| &&
              Live(auto, p.servers[q.continuum[k].index], now)
    {
      assert q.continuum[k] == fill[k];
      assert Live(auto, ss[fill[k].index], now);
    }
    forall a, b | 0 <= a < b < q.ncontinuum ensures q.continuum[a].index < q.continuum[b].index {
      assert q.continuum[a] == fill[a] && q.continuum[b] == fill[b];
    }
    forall j | 0 <= j < |p.servers| && Live(auto, p.servers[j], now)
      ensures Continuum(j, 0) in q.continuum[..q.ncontinuum]
    {
      RandomFillCoversLive(ss, auto, now, 0, j);
    }
  }

  /** modula_update: like random_update, but the check for live servers
      is followed by a fill in which each live server takes `weight`
      consecutive slots; ncontinuum is the total live weight. */
  function ModulaUpdate(p: ServerPool, now: int): (r: (int, ServerPool))
    ensures now < 0 ==> r == (Error, p)
    ensures now >= 0 ==> r.0 == Ok
    ensures now >= 0 && LiveCount(p.servers, p.autoEjectHosts, now) == 0 ==> r.1 == Surveyed(p, now)
    ensures now >= 0 && LiveCount(p.servers, p.autoEjectHosts, now) > 0 ==>
      var q := Surveyed(p, now);
      var fill := ModulaFill(q.servers, p.autoEjectHosts, now, 0);
      r.1 == q.(continuum := Overlay(fill, p.continuum), ncontinuum := U32(|fill|))
  {
    if now < 0 then (Error, p)
    else
      var q := Surveyed(p, now);
      if q.nlive == 0 then (Ok, q)
      else
        var fill := ModulaFill(q.servers, p.autoEjectHosts, now, 0);
        (Ok, q.(continuum := Overlay(fill, p.continuum), ncontinuum := U32(|fill|)))
  }

  lemma {:induction false} LiveWeightRefresh(ss: seq<Server>, auto: bool, now: int)
    requires now >= 0
    ensures LiveWeight(Refresh(ss, auto, now), auto, now) == LiveWeight(ss, auto, now)
  {
    if ss != [] {
      assert Refresh(ss, auto, now)[1..] == Refresh(ss[1..], auto, now);
      LiveWeightRefresh(ss[1..], auto, now);
    }
  }

  /** After a modula rebuild with live servers, every filled slot belongs
      to a live server and has value 0, each live server owns exactly its
      weight in slots, and ncontinuum is the total live weight. */
  lemma ModulaUpdateWeighsServers(p: ServerPool, now: int)
    requires now >= 0 && LiveCount(p.servers, p.autoEjectHosts, now) > 0
    requires LiveWeight(p.servers, p.autoEjectHosts, now) < Two32
    ensures var q := ModulaUpdate(p, now).1;
      var auto := p.autoEjectHosts;
      q.ncontinuum == LiveWeight(p.servers, auto, now) &&
      (forall k :: 0 <= k < q.ncontinuum ==>
         q.continuum[k].value == 0 && q.continuum[k].index < |p.servers| &&
         Live(auto, p.servers[q.continuum[k].index], now)) &&
      (forall j :: 0 <= j < |p.servers| ==>
         Slots(q.continuum[..q.ncontinuum], j) == if Live(auto, p.servers[j], now) then p.servers[j].weight else 0)
  {
    var auto := p.autoEjectHosts;
    var ss := Refresh(p.servers, auto, now);
    RefreshKeepsLiveness(p.servers, auto, now);
    LiveWeightRefresh(p.servers, auto, now);
    var fill := ModulaFill(ss, auto, now, 0);
    ModulaFillShape(ss, auto, now, 0);
    assert FillShaped(fill, ss, auto, now, 0);
    var q := ModulaUpdate(p, now).1;
    assert q.ncontinuum == |fill|;
    assert q.continuum[..q.ncontinuum] == fill;
    forall j | 0 <= j < |p.servers|
      ensures Slots(q.continuum[..q.ncontinuum], j) == if Live(auto, p.servers[j], now) then p.servers[j].weight else 0
    {
      ModulaSlotsPerServer(ss, auto, now, 0, j);
      assert Live(auto, ss[j], now) <==> Live(auto, p.servers[j], now);
      assert ss[j].weight == p.servers[j].weight;
    }
  }
}
