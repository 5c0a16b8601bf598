/** Distribution and claiming of rewards: the exact effect of one payout, and conservation over runs. */
module Rewards {
  import opened Words
  import opened Records
  import opened Registry
  import opened Sums
  import opened Runs

  type Nodes = map<Text, Node>

  // ---- The exact effect of one distribution ----

  /** Node `a` after its reward was granted `times` times. */
  function Rewarded(node: Node, rate: u64, period: u64, times: nat): Node {
    if times == 0 then node
    else node.(pendingRewards := Wrap(node.pendingRewards + times * Reward(node, rate)),
               lastRewardedPeriod := period)
  }

  function Count(addresses: seq<Text>, a: Text): nat {
    multiset(addresses)[a]
  }

  lemma CountLast(addresses: seq<Text>, n: nat, a: Text)
    requires 0 < n <= |addresses|
    ensures Count(addresses[..n], a) ==
            Count(addresses[..n - 1], a) + if addresses[n - 1] == a then 1 else 0
  {
    assert addresses[..n] == addresses[..n - 1] + [addresses[n - 1]];
  }

  lemma RewardedOnce(node: Node, rate: u64, period: u64, times: nat)
    ensures var before := Rewarded(node, rate, period, times);
      Rewarded(node, rate, period, times + 1) ==
      before.(pendingRewards := Wrap(before.pendingRewards + Reward(node, rate)), lastRewardedPeriod := period)
  {
    var r := Reward(node, rate);
    WrapAdd(node.pendingRewards + times * r, r);
    assert node.pendingRewards + times * r + r == node.pendingRewards + (times + 1) * r;
    hide Wrap;
    if times == 0 {
      assert node.pendingRewards + times * r == node.pendingRewards;
    }
  }

  /** Every eligible node is rewarded once per occurrence in the list; every other node is untouched. */
  lemma {:induction false} PayEffect(nodes: Nodes, rate: u64, period: u64, addresses: seq<Text>, n: nat)
    requires n <= |addresses|
    ensures var after := PayUpTo(nodes, rate, period, addresses, n).nodes;
      && after.Keys == nodes.Keys
      && forall a :: a in nodes ==>
           after[a] == Rewarded(nodes[a], rate, period,
                                if Eligible(nodes, rate, a) then Count(addresses[..n], a) else 0)
  {
    hide Wrap;
    hide Reward;
    if n > 0 {
      PayEffect(nodes, rate, period, addresses, n - 1);
      var p, last := PayUpTo(nodes, rate, period, addresses, n - 1), addresses[n - 1];
      if last in nodes {
        assert SamePay(p.nodes[last], nodes[last]);
        SamePayEligible(p.nodes, nodes, rate, last);
      }
      forall a | a in nodes
        ensures PayUpTo(nodes, rate, period, addresses, n).nodes[a] ==
                Rewarded(nodes[a], rate, period, if Eligible(nodes, rate, a) then Count(addresses[..n], a) else 0)
      {
        CountLast(addresses, n, a);
        if a == last && Eligible(nodes, rate, a) {
          RewardedOnce(nodes[a], rate, period, Count(addresses[..n - 1], a));
        }
      }
    }
  }

  /** The fields that decide eligibility and the size of a reward. */
  predicate SamePay(n: Node, n': Node) {
    && n.active == n'.active
    && n.passedChallenges == n'.passedChallenges
    && n.totalChallenges == n'.totalChallenges
    && n.allocatedGb == n'.allocatedGb
  }

  lemma SamePayEligible(nodes: Nodes, nodes': Nodes, rate: u64, a: Text)
    requires a in nodes && a in nodes' && SamePay(nodes[a], nodes'[a])
    ensures Eligible(nodes, rate, a) == Eligible(nodes', rate, a)
    ensures Reward(nodes[a], rate) == Reward(nodes'[a], rate)
  {
  }

  /** What the whole list grants, without wrapping. */
  function Granted(nodes: Nodes, rate: u64, addresses: seq<Text>, n: nat): nat
    requires n <= |addresses|
  {
    if n == 0 then 0
    else Granted(nodes, rate, addresses, n - 1) +
         if Eligible(nodes, rate, addresses[n - 1]) then Reward(nodes[addresses[n - 1]], rate) else 0
  }

  /** What `times` visits grant to node `a`. */
  function Share(nodes: Nodes, rate: u64, a: Text, times: nat): nat {
    if Eligible(nodes, rate, a) then times * Reward(nodes[a], rate) else 0
  }

  lemma ShareOnce(nodes: Nodes, rate: u64, a: Text, times: nat)
    ensures Share(nodes, rate, a, 0) == 0
    ensures Share(nodes, rate, a, times + 1) ==
            Share(nodes, rate, a, times) + if Eligible(nodes, rate, a) then Reward(nodes[a], rate) else 0
  {
  }

  /** What each node is granted by the whole list. */
  ghost function Shares(nodes: Nodes, rate: u64, addresses: seq<Text>): map<Text, int> {
    map a | a in nodes :: Share(nodes, rate, a, Count(addresses, a))
  }

  lemma SharesNext(nodes: Nodes, rate: u64, addresses: seq<Text>, n: nat)
    requires 0 < n <= |addresses|
    ensures var before, after := Shares(nodes, rate, addresses[..n - 1]), Shares(nodes, rate, addresses[..n]);
      var a := addresses[n - 1];
      after == if a in nodes then before[a := Share(nodes, rate, a, Count(addresses[..n - 1], a) + 1)] else before
  {
    hide Share;
    forall a | a in nodes
      ensures Count(addresses[..n], a) ==
              Count(addresses[..n - 1], a) + if addresses[n - 1] == a then 1 else 0
    {
      CountLast(addresses, n, a);
    }
  }

  lemma {:induction false} GrantedIsShares(nodes: Nodes, rate: u64, addresses: seq<Text>, n: nat)
    requires n <= |addresses|
    ensures Granted(nodes, rate, addresses, n) == Total(Shares(nodes, rate, addresses[..n]))
  {
    hide Share;
    if n == 0 {
      forall a | a in nodes
        ensures Share(nodes, rate, a, 0) == 0
      {
        ShareOnce(nodes, rate, a, 0);
      }
      ZeroTotal(Shares(nodes, rate, addresses[..0]));
    } else {
      GrantedIsShares(nodes, rate, addresses, n - 1);
      SharesNext(nodes, rate, addresses, n);
      var before, a := Shares(nodes, rate, addresses[..n - 1]), addresses[n - 1];
      var times := Count(addresses[..n - 1], a);
      ShareOnce(nodes, rate, a, times);
      TotalPut(before, a, Share(nodes, rate, a, times + 1));
    }
  }

  lemma {:induction false} PaidIsGranted(nodes: Nodes, rate: u64, period: u64, addresses: seq<Text>, n: nat)
    requires n <= |addresses|
    ensures PayUpTo(nodes, rate, period, addresses, n).total == Wrap(Granted(nodes, rate, addresses, n))
  {
    hide Wrap;
    hide Reward;
    if n == 0 {
      WrapSmall(0);
    } else {
      PaidIsGranted(nodes, rate, period, addresses, n - 1);
      PayEffect(nodes, rate, period, addresses, n - 1);
      var p, a := PayUpTo(nodes, rate, period, addresses, n - 1), addresses[n - 1];
      if a in nodes {
        SamePayEligible(p.nodes, nodes, rate, a);
        WrapAdd(Granted(nodes, rate, addresses, n - 1), Reward(nodes[a], rate));
      }
    }
  }

  /** The outcome of a distribution depends on how often each address is listed, not on the order. */
  lemma DistributionIsOrderFree(s: State, env: Env, period: u64, xs: seq<Text>, ys: seq<Text>)
    requires multiset(xs) == multiset(ys)
    ensures OnDistributeRewards(s, env, period, xs) == OnDistributeRewards(s, env, period, ys)
  {
    hide Wrap;
    var rate := s.config.rewardPerGbPerPeriod;
    assert xs[..|xs|] == xs && ys[..|ys|] == ys;
    var p, q := PayUpTo(s.nodes, rate, period, xs, |xs|), PayUpTo(s.nodes, rate, period, ys, |ys|);
    PayEffect(s.nodes, rate, period, xs, |xs|);
    PayEffect(s.nodes, rate, period, ys, |ys|);
    assert p.nodes == q.nodes;
    PaidIsGranted(s.nodes, rate, period, xs, |xs|);
    PaidIsGranted(s.nodes, rate, period, ys, |ys|);
    GrantedIsShares(s.nodes, rate, xs, |xs|);
    GrantedIsShares(s.nodes, rate, ys, |ys|);
    assert Shares(s.nodes, rate, xs) == Shares(s.nodes, rate, ys);
    SameMembers(s.nodes, period, xs, ys);
    SameMembers(s.nodes, period, ys, xs);
  }

  lemma SameMembers(nodes: Nodes, period: u64, xs: seq<Text>, ys: seq<Text>)
    requires multiset(xs) == multiset(ys)
    ensures AllChallenged(nodes, period, xs) ==> AllChallenged(nodes, period, ys)
  {
    if AllChallenged(nodes, period, xs) {
      forall i | 0 <= i < |ys| && ys[i] in nodes && nodes[ys[i]].active
        ensures nodes[ys[i]].lastChallengedPeriod == period
      {
        assert ys[i] in multiset(ys);
        assert ys[i] in xs;
      }
    }
  }

  // ---- Conservation over runs ----

  ghost function PendingOf(nodes: Nodes): map<Text, int> {
    map a | a in nodes :: nodes[a].pendingRewards
  }

  ghost function Pending(nodes: Nodes): int {
    Total(PendingOf(nodes))
  }

  ghost function DistributedIn(periods: map<u64, PeriodStats>): map<u64, int> {
    map p | p in periods :: periods[p].totalRewardsDistributed
  }

  ghost function Distributed(periods: map<u64, PeriodStats>): int {
    Total(DistributedIn(periods))
  }

  lemma PendingPut(nodes: Nodes, a: Text, node: Node)
    requires a in nodes
    ensures Pending(nodes[a := node]) == Pending(nodes) - nodes[a].pendingRewards + node.pendingRewards
  {
    TotalPut(PendingOf(nodes), a, node.pendingRewards);
    assert PendingOf(nodes[a := node]) == PendingOf(nodes)[a := node.pendingRewards];
  }

  lemma PendingBounds(nodes: Nodes)
    ensures 0 <= Pending(nodes)
    ensures forall a :: a in nodes ==> nodes[a].pendingRewards <= Pending(nodes)
  {
    TotalNonNegative(PendingOf(nodes));
    forall a | a in nodes
      ensures nodes[a].pendingRewards <= Pending(nodes)
    {
      assert PendingOf(nodes)[a] == nodes[a].pendingRewards;
    }
  }

  lemma DistributedPut(periods: map<u64, PeriodStats>, p: u64, stats: PeriodStats)
    requires p in periods ==> periods[p].totalRewardsDistributed == 0
    ensures Distributed(periods[p := stats]) == Distributed(periods) + stats.totalRewardsDistributed
  {
    TotalPut(DistributedIn(periods), p, stats.totalRewardsDistributed);
    assert DistributedIn(periods[p := stats]) == DistributedIn(periods)[p := stats.totalRewardsDistributed];
  }

  /** `x` is `exact` modulo 2^64, and exactly `exact` as long as that fits a word. */
  ghost predicate Tracks(x: int, exact: int) {
    Cong(x, exact) && (exact < TWO64 ==> x == exact)
  }

  /** Adding `d` to one wrapped summand `y` of the sum `x`. */
  lemma TracksStep(x: int, exact: int, y: u64, d: nat)
    requires Tracks(x, exact) && y <= x
    ensures Tracks(x - y + Wrap(y + d), exact + d)
  {
    CongStep(y, x, exact, d);
    if exact + d < TWO64 {
      WrapSmall(y + d);
    }
  }

  lemma PayOneSum(p: Payout, rate: u64, period: u64, a: Text, exact: int)
    requires Tracks(Pending(p.nodes), exact)
    ensures Tracks(Pending(PayOne(p, rate, period, a).nodes),
                   exact + if Eligible(p.nodes, rate, a) then Reward(p.nodes[a], rate) else 0)
  {
    hide Wrap;
    hide Reward;
    hide Cong;
    if Eligible(p.nodes, rate, a) {
      PendingBounds(p.nodes);
      TracksStep(Pending(p.nodes), exact, p.nodes[a].pendingRewards, Reward(p.nodes[a], rate));
      PendingPut(p.nodes, a, PayOne(p, rate, period, a).nodes[a]);
    }
  }

  /** A payout adds to the pending rewards exactly what it grants. */
  lemma {:induction false} PayoutSum(nodes: Nodes, rate: u64, period: u64, addresses: seq<Text>, n: nat)
    requires n <= |addresses|
    ensures Tracks(Pending(PayUpTo(nodes, rate, period, addresses, n).nodes),
                   Pending(nodes) + Granted(nodes, rate, addresses, n))
  {
    hide Wrap;
    hide Reward;
    if n == 0 {
      CongRefl(Pending(nodes));
    } else {
      hide Tracks;
      PayoutSum(nodes, rate, period, addresses, n - 1);
      PayEffect(nodes, rate, period, addresses, n - 1);
      var p, a := PayUpTo(nodes, rate, period, addresses, n - 1), addresses[n - 1];
      PayOneSum(p, rate, period, a, Pending(nodes) + Granted(nodes, rate, addresses, n - 1));
      if a in nodes {
        SamePayEligible(p.nodes, nodes, rate, a);
      }
    }
  }

  /** Coins balance, and what was distributed is either still pending or was claimed. */
  ghost predicate Conserved(w: World, granted: nat) {
    && w.balance + w.claimed == w.received
    && Tracks(Pending(w.s.nodes) + w.claimed, granted)
    && Tracks(Distributed(w.s.periods), granted)
    && (forall p :: p in w.s.periods && !w.s.periods[p].rewardsDistributed
          ==> w.s.periods[p].totalRewardsDistributed == 0)
  }

  /** What one event grants, without wrapping. */
  function GrantedBy(w: World, ev: Event): nat {
    if ev.Invoke? && ev.op.DistributeRewards? && Attempt(w, ev.env, ev.op).Done?
    then Granted(w.s.nodes, w.s.config.rewardPerGbPerPeriod, ev.op.addresses, |ev.op.addresses|)
    else 0
  }

  /** What a run grants, without wrapping. */
  function GrantedOver(w: World, evs: seq<Event>): nat {
    if evs == [] then 0
    else var front := evs[..|evs| - 1];
         GrantedOver(w, front) + GrantedBy(Run(w, front), evs[|evs| - 1])
  }

  lemma DistributeConserves(w: World, env: Env, op: Op, granted: nat)
    requires Conserved(w, granted)
    requires op.DistributeRewards?
    ensures Conserved(Advance(w, Invoke(env, op)), granted + GrantedBy(w, Invoke(env, op)))
  {
    hide Wrap;
    hide Cong;
    hide Eligible;
    hide Reward;
    var r := Attempt(w, env, op);
    if r.Done? {
      var rate, g := w.s.config.rewardPerGbPerPeriod, GrantedBy(w, Invoke(env, op));
      PayoutSum(w.s.nodes, rate, op.period, op.addresses, |op.addresses|);
      PendingBounds(w.s.nodes);
      TracksShift(Pending(r.next.nodes), Pending(w.s.nodes), g, w.claimed, granted);
      PaidIsGranted(w.s.nodes, rate, op.period, op.addresses, |op.addresses|);
      DistributedPut(w.s.periods, op.period, r.next.periods[op.period]);
      TracksWrapped(Distributed(w.s.periods), granted, g);
    }
  }

  lemma TracksShift(after: int, before: int, g: nat, claimed: nat, granted: nat)
    requires Tracks(after, before + g) && Tracks(before + claimed, granted)
    requires before >= 0
    ensures Tracks(after + claimed, granted + g)
  {
    CongAdd(after, before + g, claimed, claimed);
    CongAdd(before + claimed, granted, g, g);
    CongTrans(after + claimed, before + g + claimed, granted + g);
  }

  lemma TracksWrapped(x: int, granted: nat, g: nat)
    requires Tracks(x, granted)
    ensures Tracks(x + Wrap(g), granted + g)
  {
    WrapIsCong(g);
    CongAdd(x, granted, Wrap(g), g);
    if g < TWO64 {
      WrapSmall(g);
    }
  }

  lemma ClaimConserves(w: World, env: Env, granted: nat)
    requires Conserved(w, granted)
    ensures Conserved(Advance(w, Invoke(env, Op.ClaimRewards)), granted)
  {
    hide Wrap;
    var r := Attempt(w, env, Op.ClaimRewards);
    if r.Done? {
      PendingPut(w.s.nodes, env.caller, r.next.nodes[env.caller]);
    }
  }

  /** Calls that change nobody's pending rewards and no period's distributed total. */
  ghost predicate RewardsUntouched(s: State, s': State) {
    && s.nodes.Keys <= s'.nodes.Keys
    && (forall a :: a in s'.nodes ==>
          s'.nodes[a].pendingRewards == if a in s.nodes then s.nodes[a].pendingRewards else 0)
    && s.periods.Keys <= s'.periods.Keys
    && (forall p :: p in s'.periods ==>
          && s'.periods[p].totalRewardsDistributed == s.Stats(p).totalRewardsDistributed
          && s'.periods[p].rewardsDistributed == s.Stats(p).rewardsDistributed)
  }

  lemma NodeCallsLeaveRewards(s: State, env: Env, b: nat, op: Op)
    requires IsNodeCall(op)
    ensures var r := Step(s, env, b, op); r.Done? ==> RewardsUntouched(s, r.next) && r.paid == 0
  {
    hide Wrap;
  }

  lemma ChallengeCallsLeaveRewards(s: State, env: Env, b: nat, op: Op)
    requires IsChallengeCall(op)
    ensures var r := Step(s, env, b, op); r.Done? ==> RewardsUntouched(s, r.next) && r.paid == 0
  {
    hide Wrap;
  }

  lemma RestLeavesRewards(s: State, env: Env, b: nat, op: Op)
    requires !IsNodeCall(op) && !IsChallengeCall(op) && !op.DistributeRewards? && !op.ClaimRewards?
    ensures var r := Step(s, env, b, op);
      r.Done? ==> r.next.nodes == s.nodes && r.next.periods == s.periods && r.paid == 0
  {
  }

  lemma OthersLeaveRewards(s: State, env: Env, b: nat, op: Op)
    requires !op.DistributeRewards? && !op.ClaimRewards?
    ensures var r := Step(s, env, b, op); r.Done? ==> RewardsUntouched(s, r.next) && r.paid == 0
  {
    hide Step;
    if IsNodeCall(op) {
      NodeCallsLeaveRewards(s, env, b, op);
    } else if IsChallengeCall(op) {
      ChallengeCallsLeaveRewards(s, env, b, op);
    } else {
      RestLeavesRewards(s, env, b, op);
    }
  }

  lemma UntouchedSums(s: State, s': State)
    requires RewardsUntouched(s, s')
    ensures Pending(s'.nodes) == Pending(s.nodes)
    ensures Distributed(s'.periods) == Distributed(s.periods)
  {
    TotalExtend(PendingOf(s.nodes), PendingOf(s'.nodes));
    TotalExtend(DistributedIn(s.periods), DistributedIn(s'.periods));
  }

  lemma OtherConserves(w: World, env: Env, op: Op, granted: nat)
    requires Conserved(w, granted)
    requires !op.DistributeRewards? && !op.ClaimRewards?
    ensures Conserved(Advance(w, Invoke(env, op)), granted)
  {
    hide Step, Tracks, Pending, Distributed;
    OthersLeaveRewards(w.s, env, w.balance + env.coins, op);
    var r := Attempt(w, env, op);
    if r.Done? {
      UntouchedSums(w.s, r.next);
    }
  }

  lemma EventConserves(w: World, ev: Event, granted: nat)
    requires Conserved(w, granted)
    ensures Conserved(Advance(w, ev), granted + GrantedBy(w, ev))
  {
    hide Tracks;
    hide Step;
    match ev
    case CoinsArrive(_) =>
    case Invoke(env, op) =>
      if op.DistributeRewards? {
        DistributeConserves(w, env, op, granted);
      } else if op.ClaimRewards? {
        ClaimConserves(w, env, granted);
      } else {
        OtherConserves(w, env, op, granted);
      }
  }

  lemma {:induction false} RunConserves(w: World, evs: seq<Event>, granted: nat)
    requires Conserved(w, granted)
    ensures Conserved(Run(w, evs), granted + GrantedOver(w, evs))
  {
    hide Conserved;
    hide Advance;
    if evs != [] {
      var front := evs[..|evs| - 1];
      RunConserves(w, front, granted);
      EventConserves(Run(w, front), evs[|evs| - 1], granted + GrantedOver(w, front));
    }
  }

  lemma StartsConserved(admin: Text, config: Option<Config>)
    ensures Conserved(Genesis(admin, config), 0)
  {
    var s := Deploy(admin, config);
    CongRefl(0);
    assert PendingOf(s.nodes) == map[] && DistributedIn(s.periods) == map[];
  }

  lemma ConservedMeans(w: World, granted: nat)
    requires Conserved(w, granted)
    ensures Cong(Pending(w.s.nodes) + w.claimed, Distributed(w.s.periods))
    ensures granted < TWO64 ==> Pending(w.s.nodes) + w.claimed == Distributed(w.s.periods) == granted
    ensures w.claimed <= w.received
  {
    hide Cong;
    CongSym(Distributed(w.s.periods), granted);
    CongTrans(Pending(w.s.nodes) + w.claimed, granted, Distributed(w.s.periods));
  }

  /** Conservation: over every run from deployment, rewards distributed are pending or claimed,
      modulo 2^64, and exactly when all that was ever granted fits a word; and the coins paid out
      never exceed the coins received. */
  lemma {:induction false} RewardsAreConserved(admin: Text, config: Option<Config>, evs: seq<Event>)
    ensures var w, granted := Run(Genesis(admin, config), evs), GrantedOver(Genesis(admin, config), evs);
      && Cong(Pending(w.s.nodes) + w.claimed, Distributed(w.s.periods))
      && (granted < TWO64 ==> Pending(w.s.nodes) + w.claimed == Distributed(w.s.periods) == granted)
      && w.claimed <= w.received
  {
    hide Run, GrantedOver;
    var w0 := Genesis(admin, config);
    StartsConserved(admin, config);
    RunConserves(w0, evs, 0);
    ConservedMeans(Run(w0, evs), GrantedOver(w0, evs));
  }
}
