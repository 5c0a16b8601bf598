/** Period statistics start from zero in each period, so their sums over all periods telescope. */
module PeriodTotals {
  import opened Words
  import opened Records
  import opened Registry
  import opened Sums
  import opened Runs
  import opened Ledger
  import opened NodeLists

  type Periods = map<u64, PeriodStats>

  ghost function ActiveCounts(periods: Periods): map<u64, int> {
    map p | p in periods :: periods[p].activeNodes
  }

  ghost function GbCounts(periods: Periods): map<u64, int> {
    map p | p in periods :: periods[p].totalGbStored
  }

  /** `drift` is by how much nodes changed their allocation while inactive. */
  ghost predicate StatsInv(s: State, drift: int) {
    && Cong(Total(ActiveCounts(s.periods)), s.totalNodes)
    && Cong(Total(GbCounts(s.periods)), Allocation(s.nodes) + drift)
  }

  lemma CountsPut(s: State, p: u64, stats: PeriodStats)
    ensures Total(ActiveCounts(s.periods[p := stats])) ==
            Total(ActiveCounts(s.periods)) - s.Stats(p).activeNodes + stats.activeNodes
    ensures Total(GbCounts(s.periods[p := stats])) ==
            Total(GbCounts(s.periods)) - s.Stats(p).totalGbStored + stats.totalGbStored
  {
    TotalPut(ActiveCounts(s.periods), p, stats.activeNodes);
    assert ActiveCounts(s.periods[p := stats]) == ActiveCounts(s.periods)[p := stats.activeNodes];
    TotalPut(GbCounts(s.periods), p, stats.totalGbStored);
    assert GbCounts(s.periods[p := stats]) == GbCounts(s.periods)[p := stats.totalGbStored];
  }

  function ActiveGb(node: Node): u64 {
    if node.active then node.allocatedGb else 0
  }

  lemma AllocationPut(nodes: map<Text, Node>, a: Text, node: Node)
    ensures Allocation(nodes[a := node]) ==
            Allocation(nodes) - (if a in nodes then ActiveGb(nodes[a]) else 0) + ActiveGb(node)
  {
    TotalPut(AllocationOf(nodes), a, ActiveGb(node));
    assert AllocationOf(nodes[a := node]) == AllocationOf(nodes)[a := ActiveGb(node)];
  }

  /** Adding `d` to a wrapped per-period counter and `d` to what the counters sum to. */
  lemma CounterMoves(s: State, p: u64, stats: PeriodStats, nodes: int, gb: int, dNodes: int, dGb: int)
    requires Cong(Total(ActiveCounts(s.periods)), nodes) && Cong(Total(GbCounts(s.periods)), gb)
    requires stats.activeNodes == Wrap(s.Stats(p).activeNodes + dNodes)
    requires stats.totalGbStored == Wrap(s.Stats(p).totalGbStored + dGb)
    ensures Cong(Total(ActiveCounts(s.periods[p := stats])), nodes + dNodes)
    ensures Cong(Total(GbCounts(s.periods[p := stats])), gb + dGb)
  {
    hide Wrap;
    hide Cong;
    CountsPut(s, p, stats);
    CongStep(s.Stats(p).activeNodes, Total(ActiveCounts(s.periods)), nodes, dNodes);
    CongStep(s.Stats(p).totalGbStored, Total(GbCounts(s.periods)), gb, dGb);
  }

  lemma RegisterMoves(s: State, env: Env, gb: u64, endpoint: Text, p2pAddrs: seq<Text>, drift: int)
    requires StatsInv(s, drift) && OnRegisterStorageNode(s, env, gb, endpoint, p2pAddrs).Done?
    ensures StatsInv(OnRegisterStorageNode(s, env, gb, endpoint, p2pAddrs).next, drift)
  {
    hide Wrap;
    hide Cong;
    var s' := OnRegisterStorageNode(s, env, gb, endpoint, p2pAddrs).next;
    CounterMoves(s, env.period, s'.periods[env.period], s.totalNodes, Allocation(s.nodes) + drift, 1, gb);
    AllocationPut(s.nodes, env.caller, s'.nodes[env.caller]);
    WrapIsCong(s.totalNodes + 1);
    CongSym(s'.totalNodes, s.totalNodes + 1);
    CongTrans(Total(ActiveCounts(s'.periods)), s.totalNodes + 1, s'.totalNodes);
  }

  lemma UnregisterMoves(s: State, env: Env, drift: int)
    requires StatsInv(s, drift) && OnUnregisterStorageNode(s, env).Done?
    ensures StatsInv(OnUnregisterStorageNode(s, env).next, drift)
  {
    hide Wrap;
    hide Cong;
    hide FindSlot;
    var s' := OnUnregisterStorageNode(s, env).next;
    CounterMoves(s, env.period, s'.periods[env.period], s.totalNodes, Allocation(s.nodes) + drift,
                 -1, 0 - s.nodes[env.caller].allocatedGb);
    AllocationPut(s.nodes, env.caller, s'.nodes[env.caller]);
    WrapIsCong(s.totalNodes - 1);
    CongSym(s'.totalNodes, s.totalNodes - 1);
    CongTrans(Total(ActiveCounts(s'.periods)), s.totalNodes - 1, s'.totalNodes);
  }

  /** What an update adds to the drift: the change of allocation, when the node is inactive. */
  function DriftOf(s: State, env: Env, newGb: u64): int {
    if OnUpdateStorageAllocation(s, env, newGb).Done? && !s.nodes[env.caller].active
    then newGb - s.nodes[env.caller].allocatedGb
    else 0
  }

  lemma UpdateBalance(s: State, env: Env, newGb: u64)
    requires OnUpdateStorageAllocation(s, env, newGb).Done?
    ensures Allocation(OnUpdateStorageAllocation(s, env, newGb).next.nodes) + DriftOf(s, env, newGb) ==
            Allocation(s.nodes) + newGb - s.nodes[env.caller].allocatedGb
  {
    hide Wrap, Allocation;
    AllocationPut(s.nodes, env.caller, OnUpdateStorageAllocation(s, env, newGb).next.nodes[env.caller]);
  }

  lemma UpdateStats(s: State, env: Env, newGb: u64)
    requires OnUpdateStorageAllocation(s, env, newGb).Done?
    ensures var s', p := OnUpdateStorageAllocation(s, env, newGb).next, env.period;
      && p in s'.periods && s'.periods == s.periods[p := s'.periods[p]]
      && s'.totalNodes == s.totalNodes
      && s'.periods[p].activeNodes == Wrap(s.Stats(p).activeNodes + 0)
      && s'.periods[p].totalGbStored == Wrap(s.Stats(p).totalGbStored + (newGb - s.nodes[env.caller].allocatedGb))
  {
    WrapSmall(s.Stats(env.period).activeNodes);
    hide Wrap;
  }

  lemma UpdateMoves(s: State, env: Env, newGb: u64, drift: int)
    requires StatsInv(s, drift) && OnUpdateStorageAllocation(s, env, newGb).Done?
    ensures StatsInv(OnUpdateStorageAllocation(s, env, newGb).next, drift + DriftOf(s, env, newGb))
  {
    UpdateBalance(s, env, newGb);
    UpdateStats(s, env, newGb);
    assert env.caller in s.nodes;
    hide Wrap, Cong, Total, ActiveCounts, GbCounts, Allocation, DriftOf, OnUpdateStorageAllocation;
    var s' := OnUpdateStorageAllocation(s, env, newGb).next;
    CounterMoves(s, env.period, s'.periods[env.period], s.totalNodes, Allocation(s.nodes) + drift,
                 0, newGb - s.nodes[env.caller].allocatedGb);
  }

  /** Calls that move no allocation, no active flag, and no count of either. */
  ghost predicate CountsUntouched(s: State, s': State) {
    && ListsUntouched(s, s')
    && (forall a :: a in s.nodes ==> s'.nodes[a].allocatedGb == s.nodes[a].allocatedGb)
    && s.periods.Keys <= s'.periods.Keys
    && (forall p :: p in s'.periods ==>
          && s'.periods[p].activeNodes == s.Stats(p).activeNodes
          && s'.periods[p].totalGbStored == s.Stats(p).totalGbStored)
  }

  lemma DistributionLeavesCounts(s: State, env: Env, b: nat, op: Op)
    requires op.DistributeRewards? && Step(s, env, b, op).Done?
    ensures CountsUntouched(s, Step(s, env, b, op).next)
  {
    PayFrame(s.nodes, s.config.rewardPerGbPerPeriod, op.period, op.addresses, |op.addresses|);
  }

  lemma ChallengesLeaveCounts(s: State, env: Env, b: nat, op: Op)
    requires IsChallengeCall(op) && Step(s, env, b, op).Done?
    ensures CountsUntouched(s, Step(s, env, b, op).next)
  {
    hide Wrap;
  }

  lemma OthersLeaveCounts(s: State, env: Env, b: nat, op: Op)
    requires !IsNodeCall(op)
    requires Step(s, env, b, op).Done?
    ensures CountsUntouched(s, Step(s, env, b, op).next)
  {
    if op.DistributeRewards? {
      DistributionLeavesCounts(s, env, b, op);
      hide Step;
    } else if IsChallengeCall(op) {
      ChallengesLeaveCounts(s, env, b, op);
      hide Step;
    }
  }

  lemma UntouchedCounts(s: State, s': State, drift: int)
    requires StatsInv(s, drift) && CountsUntouched(s, s')
    ensures StatsInv(s', drift)
  {
    hide Cong;
    TotalExtend(ActiveCounts(s.periods), ActiveCounts(s'.periods));
    TotalExtend(GbCounts(s.periods), GbCounts(s'.periods));
    assert AllocationOf(s'.nodes) == AllocationOf(s.nodes);
  }

  function DriftBy(w: World, ev: Event): int {
    if ev.Invoke? && ev.op.UpdateStorageAllocation? then DriftOf(w.s, ev.env, ev.op.newGb) else 0
  }

  /** Net change of allocations made by inactive nodes during a run. */
  function Drift(w: World, evs: seq<Event>): int {
    if evs == [] then 0
    else var front := evs[..|evs| - 1];
         Drift(w, front) + DriftBy(Run(w, front), evs[|evs| - 1])
  }

  lemma EventMoves(w: World, ev: Event, drift: int)
    requires StatsInv(w.s, drift)
    ensures StatsInv(Advance(w, ev).s, drift + DriftBy(w, ev))
  {
    hide StatsInv;
    if ev.Invoke? && Attempt(w, ev.env, ev.op).Done? {
      match ev.op
      case RegisterStorageNode(gb, endpoint, p2pAddrs) => RegisterMoves(w.s, ev.env, gb, endpoint, p2pAddrs, drift);
      case UnregisterStorageNode => UnregisterMoves(w.s, ev.env, drift);
      case UpdateStorageAllocation(newGb) => UpdateMoves(w.s, ev.env, newGb, drift);
      case _ =>
        OthersLeaveCounts(w.s, ev.env, w.balance + ev.env.coins, ev.op);
        UntouchedCounts(w.s, Attempt(w, ev.env, ev.op).next, drift);
    }
  }

  lemma {:induction false} RunMoves(w: World, evs: seq<Event>, drift: int)
    requires StatsInv(w.s, drift)
    ensures StatsInv(Run(w, evs).s, drift + Drift(w, evs))
  {
    hide StatsInv;
    hide Advance;
    if evs != [] {
      var front := evs[..|evs| - 1];
      RunMoves(w, front, drift);
      EventMoves(Run(w, front), evs[|evs| - 1], drift + Drift(w, front));
    }
  }

  /** The sum over all periods of `activeNodes` is the number of listed nodes modulo 2^64. The sum of
      `totalGbStored` is the active capacity if and only if the changes made by inactive nodes cancel. */
  lemma {:induction false} StatsTelescope(admin: Text, config: Option<Config>, evs: seq<Event>)
    ensures var s, drift := Run(Genesis(admin, config), evs).s, Drift(Genesis(admin, config), evs);
      && Cong(Total(ActiveCounts(s.periods)), s.totalNodes)
      && Cong(Total(GbCounts(s.periods)), Allocation(s.nodes) + drift)
      && (Cong(Total(GbCounts(s.periods)), Allocation(s.nodes)) <==> Cong(drift, 0))
  {
    hide Run;
    hide Drift;
    var w0 := Genesis(admin, config);
    CongRefl(0);
    assert ActiveCounts(w0.s.periods) == map[] && GbCounts(w0.s.periods) == map[];
    assert AllocationOf(w0.s.nodes) == map[];
    RunMoves(w0, evs, 0);
    var s, drift := Run(w0, evs).s, Drift(w0, evs);
    var gb, held := Total(GbCounts(s.periods)), Allocation(s.nodes);
    hide Cong;
    if Cong(gb, held) {
      CongTrans(gb, held, held);
      CongAdd(held, gb, drift, drift);
      CongTrans(held + drift, gb + drift, gb + drift);
      ShiftCong(gb, held, drift);
    }
    if Cong(drift, 0) {
      CongRefl(held);
      CongAdd(held, held, drift, 0);
      CongTrans(gb, held + drift, held);
    }
  }

  lemma ShiftCong(x: int, y: int, d: int)
    requires Cong(x, y) && Cong(x, y + d)
    ensures Cong(d, 0)
  {
    CongTrans(x, y, y);
    CongTrans(y, x, y + d);
    CongTrans(y + d, y, y);
  }

  /** No update by an inactive node, no drift. */
  lemma {:induction false} NoInactiveUpdateNoDrift(w: World, evs: seq<Event>)
    requires forall i :: 0 <= i < |evs| ==> DriftBy(At(w, evs, i), evs[i]) == 0
    ensures Drift(w, evs) == 0
  {
    if evs != [] {
      var n := |evs| - 1;
      forall i | 0 <= i < n
        ensures DriftBy(At(w, evs[..n], i), evs[..n][i]) == 0
      {
        assert evs[..n][..i] == evs[..i];
      }
      NoInactiveUpdateNoDrift(w, evs[..n]);
      assert DriftBy(At(w, evs, n), evs[n]) == 0;
    }
  }

  /** A provider that registers 1 GB, unregisters and then updates to 3 GB makes the totals disagree. */
  lemma InactiveUpdateDrifts(admin: Text, a: Text)
    ensures var env := Env(a, 7, 0, 0);
      var evs := [Invoke(env, Op.RegisterStorageNode(1, EMPTY, [])), Invoke(env, Op.UnregisterStorageNode),
                  Invoke(env, Op.UpdateStorageAllocation(3))];
      var s := Run(Genesis(admin, None), evs).s;
      !Cong(Total(GbCounts(s.periods)), Allocation(s.nodes))
  {
    var env := Env(a, 7, 0, 0);
    var e1, e2, e3 := Invoke(env, Op.RegisterStorageNode(1, EMPTY, [])), Invoke(env, Op.UnregisterStorageNode),
                      Invoke(env, Op.UpdateStorageAllocation(3));
    var w0 := Genesis(admin, None);
    assert [e1, e2, e3][..2] == [e1, e2] && [e1, e2][..1] == [e1];
    var w1 := Advance(w0, e1);
    assert Run(w0, [e1]) == w1;
    var w2 := Advance(w1, e2);
    assert Run(w0, [e1, e2]) == w2;
    assert !w2.s.nodes[a].active && w2.s.nodes[a].allocatedGb == 1;
    assert Drift(w0, [e1]) == 0;
    assert Drift(w0, [e1, e2]) == 0;
    assert Drift(w0, [e1, e2, e3]) == DriftBy(w2, e3) == 2;
    StatsTelescope(admin, None, [e1, e2, e3]);
  }
}
