/** What the past of a node fixes about its future: proof history behind every reward, permanent
    exclusion after a failure, challenges that settle once, periods that are distributed once. */
module History {
  import opened Words
  import opened Records
  import opened Registry
  import opened Runs
  import opened Ledger
  import opened Rewards

  /** Every state reached from deployment satisfies the ledger invariant. */
  lemma {:induction false} LedgerHolds(admin: Text, config: Option<Config>, evs: seq<Event>)
    ensures LedgerInv(Run(Genesis(admin, config), evs).s)
  {
    var s0 := Deploy(admin, config);
    forall a, p
      ensures Naming(s0.challenges, a) == {} && PassedBy(s0.challenges, a) == {}
      ensures IssuedIn(s0.challenges, p) == {} && PassedIn(s0.challenges, p) == {}
    {
    }
    assert LedgerInv(s0);
    RunKeepsLedger(Genesis(admin, config), evs);
  }

  lemma {:induction false} RunKeepsLedger(w: World, evs: seq<Event>)
    requires LedgerInv(w.s)
    ensures LedgerInv(Run(w, evs).s)
  {
    hide LedgerInv;
    hide Step;
    forall s, env, b, op | LedgerInv(s) && Step(s, env, b, op).Done?
      ensures LedgerInv(Step(s, env, b, op).next)
    {
      LedgerStep(s, env, b, op);
    }
    Invariant(s => LedgerInv(s), w, evs);
  }

  // ---- A reward implies proof history ----

  lemma SameSizeSubset(x: set<Text>, y: set<Text>)
    requires x <= y && |x| == |y|
    ensures x == y
  {
    if k :| k in y && k !in x {
      assert x <= y - {k};
      SizeMonotone(x, y - {k});
    }
  }

  lemma {:induction false} SizeMonotone(x: set<Text>, y: set<Text>)
    requires x <= y
    ensures |x| <= |y|
  {
    if k :| k in x {
      SizeMonotone(x - {k}, y - {k});
    }
  }

  lemma WrappedSizes(x: set<Text>, y: set<Text>, z: set<Text>)
    requires x <= y <= z && |z| < TWO64
    ensures Wrap(|x|) == Wrap(|y|) <==> x == y
  {
    SizeMonotone(y, z);
    SizeMonotone(x, y);
    if |x| == |y| {
      SameSizeSubset(x, y);
    }
  }

  /** Equal counters mean that every challenge of the node was passed, and conversely. */
  lemma CountersMeanPassed(s: State, a: Text)
    requires LedgerInv(s) && a in s.nodes && |s.challenges| < TWO64
    ensures s.nodes[a].passedChallenges == s.nodes[a].totalChallenges <==>
            forall id :: id in s.challenges && s.challenges[id].nodeAddress == a ==> s.challenges[id].passed
  {
    var cs := s.challenges;
    assert NodeAgrees(s.nodes[a], cs, a);
    hide LedgerInv;
    hide Wrap;
    WrappedSizes(PassedBy(cs, a), Naming(cs, a), cs.Keys);
    if PassedBy(cs, a) == Naming(cs, a) {
      forall id | id in cs && cs[id].nodeAddress == a
        ensures cs[id].passed
      {
        assert id in Naming(cs, a);
      }
    } else {
      var id :| id in Naming(cs, a) && id !in PassedBy(cs, a);
    }
  }

  lemma ListedWasChallenged(s: State, env: Env, period: u64, addresses: seq<Text>, a: Text)
    requires OnDistributeRewards(s, env, period, addresses).Done?
    requires a in addresses && a in s.nodes && s.nodes[a].active
    ensures s.nodes[a].lastChallengedPeriod == period
  {
    var i :| 0 <= i < |addresses| && addresses[i] == a;
  }

  /** A node has been challenged in its last challenged period exactly when it has ever been challenged. */
  lemma ChallengedLatest(s: State, a: Text)
    requires LedgerInv(s) && a in s.nodes && |s.challenges| < TWO64
    ensures Challenged(s.challenges, a, s.nodes[a].lastChallengedPeriod) <==> s.nodes[a].totalChallenges > 0
  {
    var cs := s.challenges;
    assert NodeAgrees(s.nodes[a], cs, a);
    SizeMonotone(Naming(cs, a), cs.Keys);
    WrapSmall(|Naming(cs, a)|);
    if id :| id in Naming(cs, a) {
      SizeMonotone({id}, Naming(cs, a));
      assert LatestIsStored(s, cs[id].nodeAddress);
    } else {
      assert Naming(cs, a) == {};
      assert forall id :: id in cs && cs[id].nodeAddress == a ==> id in Naming(cs, a);
    }
  }

  /** Whoever a distribution rewards, in whatever period, has every challenge ever issued to it resolved and
      passed. It was challenged in that very period if and only if it was ever challenged at all, which
      can be otherwise in the sentinel period alone. */
  lemma RewardImpliesHistory(s: State, env: Env, period: u64, addresses: seq<Text>, a: Text)
    requires LedgerInv(s) && |s.challenges| < TWO64
    requires OnDistributeRewards(s, env, period, addresses).Done?
    requires a in addresses && Eligible(s.nodes, s.config.rewardPerGbPerPeriod, a)
    ensures forall id :: id in s.challenges && s.challenges[id].nodeAddress == a
              ==> s.challenges[id].resolved && s.challenges[id].passed
    ensures Challenged(s.challenges, a, period) <==> s.nodes[a].totalChallenges > 0
    ensures period != MAX64 ==> s.nodes[a].totalChallenges > 0
  {
    CountersMeanPassed(s, a);
    ListedWasChallenged(s, env, period, addresses, a);
    ChallengedLatest(s, a);
  }

  /** A distribution changes the records of listed, eligible nodes only. */
  lemma ChangedIsListed(s: State, env: Env, period: u64, addresses: seq<Text>, a: Text)
    requires var r := OnDistributeRewards(s, env, period, addresses);
      r.Done? && a in s.nodes && (a !in r.next.nodes || r.next.nodes[a] != s.nodes[a])
    ensures a in addresses && Eligible(s.nodes, s.config.rewardPerGbPerPeriod, a)
  {
    PayEffect(s.nodes, s.config.rewardPerGbPerPeriod, period, addresses, |addresses|);
    assert addresses[..|addresses|] == addresses;
    assert a in multiset(addresses);
  }

  /** Every challenge that was issued to the node in the period is passed. */
  ghost predicate PassedAllIn(cs: Challenges, a: Text, period: u64) {
    forall id :: id in cs && cs[id].nodeAddress == a && cs[id].issuedPeriod == period ==> cs[id].passed
  }

  /** What the payout loop compares, against "passed all its challenges for the period": who has not is never
      paid, and who has is paid if and only if every challenge of the other periods is passed as well. */
  lemma LifetimeAgainstPeriod(s: State, a: Text, period: u64)
    requires LedgerInv(s) && a in s.nodes && |s.challenges| < TWO64
    ensures var equal := s.nodes[a].passedChallenges == s.nodes[a].totalChallenges;
      && (!PassedAllIn(s.challenges, a, period) ==> !equal)
      && (PassedAllIn(s.challenges, a, period) ==>
            (equal <==> forall p: u64 :: p != period ==> PassedAllIn(s.challenges, a, p)))
  {
    CountersMeanPassed(s, a);
    hide LedgerInv;
    if forall p: u64 :: p != period ==> PassedAllIn(s.challenges, a, p) {
      if PassedAllIn(s.challenges, a, period) {
        forall id | id in s.challenges && s.challenges[id].nodeAddress == a
          ensures s.challenges[id].passed
        {
          assert PassedAllIn(s.challenges, a, s.challenges[id].issuedPeriod);
        }
      }
    }
  }

  /** A provider answers the challenge of period 1 with an empty proof and that of period 2 with a proof. */
  function LateStart(admin: Text, a: Text, i: Text, j: Text): seq<Event> {
    [Invoke(Env(a, 1, 0, 0), Op.RegisterStorageNode(1, EMPTY, [])),
     Invoke(Env(admin, 1, 0, 0), Op.IssueChallenge(i, a, EMPTY, 0)),
     Invoke(Env(a, 1, 0, 0), Op.SubmitProof(i, [])),
     Invoke(Env(admin, 2, 0, 0), Op.IssueChallenge(j, a, EMPTY, 0)),
     Invoke(Env(a, 2, 0, 0), Op.SubmitProof(j, [0]))]
  }

  /** One provider and its challenges, in a contract as deployed; nothing was distributed yet. */
  ghost predicate Alone(s: State, admin: Text, node: Node, cs: Challenges) {
    && !s.Paused() && s.admin == admin && s.config == DEFAULT_CONFIG
    && s.nodes == map[node.address := node] && node.active
    && s.challenges == cs
    && forall p: u64 :: !s.Stats(p).rewardsDistributed
  }

  lemma AloneIssue(w: World, admin: Text, node: Node, cs: Challenges, period: u64, id: Text)
    requires Alone(w.s, admin, node, cs) && id !in cs && node.totalChallenges < MAX64
    ensures Alone(Advance(w, Invoke(Env(admin, period, 0, 0), Op.IssueChallenge(id, node.address, EMPTY, 0))).s, admin,
                  node.(totalChallenges := node.totalChallenges + 1, lastChallengedPeriod := period),
                  cs[id := Challenge(id, node.address, EMPTY, 0, period, 60_000, false, false)])
  {
    WrapSmall(node.totalChallenges + 1);
    WrapSmall(60_000);
    hide Wrap;
    var s' := OnIssueChallenge(w.s, Env(admin, period, 0, 0), id, node.address, EMPTY, 0).next;
    var next := node.(totalChallenges := node.totalChallenges + 1, lastChallengedPeriod := period);
    assert s'.nodes == map[node.address := next];
    assert forall p: u64 :: s'.Stats(p).rewardsDistributed == w.s.Stats(p).rewardsDistributed;
  }

  lemma AloneSubmit(w: World, admin: Text, node: Node, cs: Challenges, period: u64, id: Text, proof: Bytes)
    requires Alone(w.s, admin, node, cs) && node.passedChallenges < MAX64
    requires id in cs && !cs[id].resolved && cs[id].nodeAddress == node.address
    ensures var gained := if |proof| > 0 then 1 else 0;
      Alone(Advance(w, Invoke(Env(node.address, period, 0, 0), Op.SubmitProof(id, proof))).s, admin,
            node.(passedChallenges := node.passedChallenges + gained),
            cs[id := cs[id].(resolved := true, passed := |proof| > 0)])
  {
    var gained := if |proof| > 0 then 1 else 0;
    WrapSmall(node.passedChallenges + gained);
    hide Wrap;
    var s' := OnSubmitProof(w.s, Env(node.address, period, 0, 0), id, proof).next;
    assert s'.nodes == map[node.address := node.(passedChallenges := node.passedChallenges + gained)];
    assert forall p: u64 :: s'.Stats(p).rewardsDistributed == w.s.Stats(p).rewardsDistributed;
  }

  lemma RunOfFive(w: World, evs: seq<Event>)
    requires |evs| == 5
    ensures Run(w, evs) == Advance(Advance(Advance(Advance(Advance(w, evs[0]), evs[1]), evs[2]), evs[3]), evs[4])
  {
    hide Advance;
    assert evs[..4][..3] == evs[..3] && evs[..3][..2] == evs[..2] && evs[..2][..1] == evs[..1] && evs[..1][..0] == [];
    assert Run(w, evs[..1]) == Advance(Run(w, []), evs[0]);
    assert Run(w, evs[..2]) == Advance(Run(w, evs[..1]), evs[1]);
    assert Run(w, evs[..3]) == Advance(Run(w, evs[..2]), evs[2]);
    assert Run(w, evs[..4]) == Advance(Run(w, evs[..3]), evs[3]);
  }

  lemma Overwrite(cs: Challenges, id: Text, c: Challenge, d: Challenge)
    ensures cs[id := c][id := d] == cs[id := d]
  {
  }

  lemma LateStartEnd(admin: Text, a: Text, i: Text, j: Text)
    requires i != j
    ensures Alone(Run(Genesis(admin, None), LateStart(admin, a, i, j)).s, admin, Node(a, 1, 1, 2, 1, 0, 2, 1, true),
                  map[][i := Challenge(i, a, EMPTY, 0, 1, 60_000, true, false)]
                       [j := Challenge(j, a, EMPTY, 0, 2, 60_000, true, true)])
  {
    var w0, evs := Genesis(admin, None), LateStart(admin, a, i, j);
    RunOfFive(w0, evs);
    assert Alone(Advance(w0, evs[0]).s, admin, NewNode(a, 1, 1), map[]);
    hide Advance, Alone, Run;
    var w1 := Advance(w0, evs[0]);
    var w2 := Advance(w1, evs[1]);
    var w3 := Advance(w2, evs[2]);
    var w4 := Advance(w3, evs[3]);
    var none: Challenges := map[];
    var c, c' := Challenge(i, a, EMPTY, 0, 1, 60_000, false, false), Challenge(i, a, EMPTY, 0, 1, 60_000, true, false);
    var d, d' := Challenge(j, a, EMPTY, 0, 2, 60_000, false, false), Challenge(j, a, EMPTY, 0, 2, 60_000, true, true);
    AloneIssue(w1, admin, NewNode(a, 1, 1), none, 1, i);
    AloneSubmit(w2, admin, Node(a, 1, 1, 1, 0, 0, 1, 1, true), none[i := c], 1, i, []);
    Overwrite(none, i, c, c');
    AloneIssue(w3, admin, Node(a, 1, 1, 1, 0, 0, 1, 1, true), none[i := c'], 2, j);
    AloneSubmit(w4, admin, Node(a, 1, 1, 2, 0, 0, 2, 1, true), none[i := c'][j := d], 2, j, [0]);
    Overwrite(none[i := c'], j, d, d');
  }

  /** It passed all its challenges for period 2 and is listed, and the distribution of period 2 pays it nothing. */
  lemma PassedPeriodUnpaid(admin: Text, a: Text, i: Text, j: Text)
    requires i != j
    ensures var s := Run(Genesis(admin, None), LateStart(admin, a, i, j)).s;
      var r := OnDistributeRewards(s, Env(admin, 2, 0, 0), 2, [a]);
      && Challenged(s.challenges, a, 2) && PassedAllIn(s.challenges, a, 2)
      && r.Done? && PendingAt(r.next, a) == 0
  {
    var s := Run(Genesis(admin, None), LateStart(admin, a, i, j)).s;
    LateStartEnd(admin, a, i, j);
    hide Run;
    assert s.challenges[j].nodeAddress == a;
    PayEffect(s.nodes, s.config.rewardPerGbPerPeriod, 2, [a], 1);
    assert !Eligible(s.nodes, s.config.rewardPerGbPerPeriod, a);
  }

  /** A node passes the check for a period exactly when it was last challenged in that period, some challenge
      was issued to it then, and it has passed every challenge ever issued to it. */
  lemma PassedCurrentMeansHistory(s: State, a: Text, period: u64)
    requires LedgerInv(s) && a in s.nodes && |s.challenges| < TWO64
    ensures s.nodes[a].HasPassedCurrentChallenge(period) <==>
            && s.nodes[a].lastChallengedPeriod == period
            && Challenged(s.challenges, a, period)
            && forall id :: id in s.challenges && s.challenges[id].nodeAddress == a ==> s.challenges[id].passed
  {
    CountersMeanPassed(s, a);
    ChallengedLatest(s, a);
  }

  function PendingAt(s: State, a: Text): u64 {
    if a in s.nodes then s.nodes[a].pendingRewards else 0
  }

  /** At the sentinel period the history is not implied: a node that nobody ever challenged is paid. */
  lemma SentinelPeriodPaysUnchallenged(admin: Text, a: Text)
    ensures var s0 := Deploy(admin, None);
      var s1 := OnRegisterStorageNode(s0, Env(a, 0, 0, 0), 1, EMPTY, []).next;
      var r := OnDistributeRewards(s1, Env(admin, 0, 0, 0), MAX64, [a]);
      && s1.challenges == map[]
      && r.Done?
      && PendingAt(r.next, a) == DEFAULT_CONFIG.rewardPerGbPerPeriod
  {
    var s1 := OnRegisterStorageNode(Deploy(admin, None), Env(a, 0, 0, 0), 1, EMPTY, []).next;
    var p := PayUpTo(s1.nodes, s1.config.rewardPerGbPerPeriod, MAX64, [a], 1);
    assert p == PayOne(PayUpTo(s1.nodes, s1.config.rewardPerGbPerPeriod, MAX64, [a], 0),
                       s1.config.rewardPerGbPerPeriod, MAX64, a);
  }

  // ---- Permanent exclusion ----

  /** `a` has a challenge that was resolved as failed, or is unresolved past its deadline at time `t`. */
  ghost predicate Failed(cs: Challenges, a: Text, t: u64) {
    exists id :: id in cs && HasFailed(cs[id], a, t)
  }

  predicate HasFailed(c: Challenge, a: Text, t: u64) {
    c.nodeAddress == a && !c.passed && (c.resolved || c.deadline < t)
  }

  /** What can become of a challenge in one call: it stays, or, unresolved, it is settled. */
  predicate Settles(c: Challenge, c': Challenge, now: u64) {
    || c' == c
    || (!c.resolved && c' == c.(resolved := true, passed := c'.passed) && (c'.passed ==> now <= c.deadline))
  }

  lemma ChallengesSettle(s: State, env: Env, b: nat, op: Op)
    requires Step(s, env, b, op).Done?
    ensures var cs' := Step(s, env, b, op).next.challenges;
      forall id :: id in s.challenges ==> id in cs' && Settles(s.challenges[id], cs'[id], env.now)
  {
    hide Wrap;
    if op.ResolveExpiredChallenges? {
      ExpireEffect(s.challenges, env.now, op.ids, |op.ids|);
    }
  }

  lemma FailureStays(s: State, env: Env, b: nat, op: Op, a: Text, t: u64)
    requires Failed(s.challenges, a, t) && t <= env.now
    requires Step(s, env, b, op).Done?
    ensures Failed(Step(s, env, b, op).next.challenges, a, t)
  {
    ChallengesSettle(s, env, b, op);
    hide Step;
    var id :| id in s.challenges && HasFailed(s.challenges[id], a, t);
    assert HasFailed(Step(s, env, b, op).next.challenges[id], a, t);
  }

  lemma FailedMeansBehind(s: State, a: Text, t: u64)
    requires LedgerInv(s) && |s.challenges| < TWO64 && Failed(s.challenges, a, t)
    ensures a in s.nodes && s.nodes[a].passedChallenges != s.nodes[a].totalChallenges
  {
    var id :| id in s.challenges && HasFailed(s.challenges[id], a, t);
    CountersMeanPassed(s, a);
  }

  lemma DistributionSkips(s: State, env: Env, b: nat, op: Op, a: Text)
    requires a in s.nodes && s.nodes[a].passedChallenges != s.nodes[a].totalChallenges
    requires op.DistributeRewards? && Step(s, env, b, op).Done?
    ensures PendingAt(Step(s, env, b, op).next, a) == PendingAt(s, a)
  {
    PayEffect(s.nodes, s.config.rewardPerGbPerPeriod, op.period, op.addresses, |op.addresses|);
  }

  lemma ClaimOnlyLowers(s: State, env: Env, b: nat, op: Op, a: Text)
    requires op.ClaimRewards? && Step(s, env, b, op).Done?
    ensures PendingAt(Step(s, env, b, op).next, a) <= PendingAt(s, a)
  {
  }

  lemma FailedGainsNothing(s: State, env: Env, b: nat, op: Op, a: Text, t: u64)
    requires LedgerInv(s) && |s.challenges| < TWO64
    requires Failed(s.challenges, a, t)
    requires Step(s, env, b, op).Done?
    ensures PendingAt(Step(s, env, b, op).next, a) <= PendingAt(s, a)
  {
    FailedMeansBehind(s, a, t);
    hide LedgerInv, Failed, Step;
    if op.DistributeRewards? {
      DistributionSkips(s, env, b, op, a);
    } else if op.ClaimRewards? {
      ClaimOnlyLowers(s, env, b, op, a);
    } else {
      OthersLeaveRewards(s, env, b, op);
    }
  }

  /** The clock of a run never falls below `t`. */
  ghost predicate ClockFrom(evs: seq<Event>, t: u64) {
    forall i :: 0 <= i < |evs| && evs[i].Invoke? ==> t <= evs[i].env.now
  }

  lemma ChallengesGrow(w: World, ev: Event)
    ensures w.s.challenges.Keys <= Advance(w, ev).s.challenges.Keys
  {
    if ev.Invoke? && Attempt(w, ev.env, ev.op).Done? {
      ChallengesSettle(w.s, ev.env, w.balance + ev.env.coins, ev.op);
    }
  }

  /** Once a node has failed a challenge, its counters differ forever and no continuation of the run
      ever increases what is pending for it. */
  lemma {:induction false} PermanentExclusion(w: World, evs: seq<Event>, a: Text, t: u64)
    requires LedgerInv(w.s) && Failed(w.s.challenges, a, t) && ClockFrom(evs, t)
    requires |Run(w, evs).s.challenges| < TWO64
    ensures var s := Run(w, evs).s;
      && LedgerInv(s) && Failed(s.challenges, a, t)
      && a in s.nodes && s.nodes[a].passedChallenges != s.nodes[a].totalChallenges
    ensures forall i, j :: 0 <= i <= j <= |evs| ==> PendingAt(At(w, evs, j).s, a) <= PendingAt(At(w, evs, i).s, a)
  {
    hide LedgerInv;
    hide Advance;
    RunKeepsLedger(w, evs);
    if evs == [] {
      FailedMeansBehind(w.s, a, t);
    } else {
      var n := |evs| - 1;
      var front := evs[..n];
      ChallengesGrow(Run(w, front), evs[n]);
      CardinalityGrows(Run(w, front).s.challenges, Run(w, evs).s.challenges);
      PermanentExclusion(w, front, a, t);
      ExclusionStep(Run(w, front), evs[n], a, t);
      FailedMeansBehind(Run(w, evs).s, a, t);
      forall i, j | 0 <= i <= j <= |evs|
        ensures PendingAt(At(w, evs, j).s, a) <= PendingAt(At(w, evs, i).s, a)
      {
        AtFront(w, evs, i);
        AtFront(w, evs, j);
        AtEnd(w, evs);
        AtEnd(w, front);
        if i <= n {
          assert PendingAt(At(w, front, n).s, a) <= PendingAt(At(w, front, i).s, a);
        }
      }
    }
  }

  lemma AtFront(w: World, evs: seq<Event>, i: nat)
    requires evs != [] && i <= |evs|
    ensures i < |evs| ==> At(w, evs, i) == At(w, evs[..|evs| - 1], i)
  {
    if i < |evs| {
      assert evs[..|evs| - 1][..i] == evs[..i];
    }
  }

  lemma CardinalityGrows(cs: Challenges, cs': Challenges)
    requires cs.Keys <= cs'.Keys
    ensures |cs| <= |cs'|
  {
    SizeMonotone(cs.Keys, cs'.Keys);
  }

  lemma ExclusionStep(w: World, ev: Event, a: Text, t: u64)
    requires LedgerInv(w.s) && |w.s.challenges| < TWO64
    requires Failed(w.s.challenges, a, t) && (ev.Invoke? ==> t <= ev.env.now)
    ensures Failed(Advance(w, ev).s.challenges, a, t)
    ensures PendingAt(Advance(w, ev).s, a) <= PendingAt(w.s, a)
  {
    hide Step, LedgerInv, Failed, PendingAt;
    if ev.Invoke? && Attempt(w, ev.env, ev.op).Done? {
      FailureStays(w.s, ev.env, w.balance + ev.env.coins, ev.op, a, t);
      FailedGainsNothing(w.s, ev.env, w.balance + ev.env.coins, ev.op, a, t);
    }
  }

  // ---- Challenges settle once ----

  /** A resolved challenge is never rewritten, whatever is called later, and no challenge disappears
      or changes the node, chunk, nonce, period or deadline it was issued with. */
  lemma {:induction false} SettledForever(w: World, evs: seq<Event>, id: Text)
    requires id in w.s.challenges
    ensures var c, cs := w.s.challenges[id], Run(w, evs).s.challenges;
      && id in cs
      && (c.resolved ==> cs[id] == c)
      && cs[id].(resolved := c.resolved, passed := c.passed) == c
  {
    if evs != [] {
      var n := |evs| - 1;
      var v := Run(w, evs[..n]);
      SettledForever(w, evs[..n], id);
      if evs[n].Invoke? && Attempt(v, evs[n].env, evs[n].op).Done? {
        ChallengesSettle(v.s, evs[n].env, v.balance + evs[n].env.coins, evs[n].op);
      }
      hide Step;
    }
  }

  /** An expiry run depends only on which ids it lists, not on their order or repetition. */
  lemma ExpiryIsOrderFree(s: State, env: Env, ids: seq<Text>, ids': seq<Text>)
    requires forall id :: id in ids <==> id in ids'
    ensures OnResolveExpiredChallenges(s, env, ids) == OnResolveExpiredChallenges(s, env, ids')
  {
    ExpireEffect(s.challenges, env.now, ids, |ids|);
    ExpireEffect(s.challenges, env.now, ids', |ids'|);
    assert ids[..|ids|] == ids && ids'[..|ids'|] == ids';
    assert ExpireUpTo(s.challenges, env.now, ids, |ids|) == ExpireUpTo(s.challenges, env.now, ids', |ids'|);
  }

  // ---- Periods are distributed once ----

  /** The payout record of a period, once written, is final. */
  lemma DistributionIsFinal(s: State, env: Env, b: nat, op: Op, p: u64)
    requires s.Stats(p).rewardsDistributed && Step(s, env, b, op).Done?
    ensures var s' := Step(s, env, b, op).next;
      && s'.Stats(p).rewardsDistributed
      && s'.Stats(p).totalRewardsDistributed == s.Stats(p).totalRewardsDistributed
  {
    if !op.DistributeRewards? && !op.ClaimRewards? {
      OthersLeaveRewards(s, env, b, op);
      hide Step;
      assert p in s.periods;
    }
  }

  lemma {:induction false} DistributedStays(w: World, evs: seq<Event>, p: u64)
    requires w.s.Stats(p).rewardsDistributed
    ensures var s := Run(w, evs).s;
      && s.Stats(p).rewardsDistributed
      && s.Stats(p).totalRewardsDistributed == w.s.Stats(p).totalRewardsDistributed
  {
    if evs != [] {
      var n := |evs| - 1;
      var v := Run(w, evs[..n]);
      DistributedStays(w, evs[..n], p);
      if evs[n].Invoke? && Attempt(v, evs[n].env, evs[n].op).Done? {
        DistributionIsFinal(v.s, evs[n].env, v.balance + evs[n].env.coins, evs[n].op, p);
      }
      hide Step;
    }
  }

  /** After a successful distribution of a period, every later attempt to distribute it reverts. */
  lemma DistributedAtMostOnce(w: World, env: Env, op: Op, evs: seq<Event>, env': Env, op': Op)
    requires op.DistributeRewards? && op'.DistributeRewards? && op'.period == op.period
    requires Attempt(w, env, op).Done?
    ensures Attempt(Run(Advance(w, Invoke(env, op)), evs), env', op').Reverted?
  {
    DistributedStays(Advance(w, Invoke(env, op)), evs, op.period);
  }

  // ---- Who must have been challenged ----

  /** Every active node that is not in the list was last challenged in the period. */
  ghost predicate ChallengedOutside(nodes: map<Text, Node>, period: u64, addresses: seq<Text>) {
    forall a :: a in nodes && nodes[a].active && a !in addresses ==> nodes[a].lastChallengedPeriod == period
  }

  /** A distribution guarantees that all active nodes were challenged exactly as far as its list reaches. */
  lemma AllWereChallengedIff(s: State, env: Env, period: u64, addresses: seq<Text>)
    requires OnDistributeRewards(s, env, period, addresses).Done?
    ensures ChallengedOutside(s.nodes, period, []) <==> ChallengedOutside(s.nodes, period, addresses)
  {
    if ChallengedOutside(s.nodes, period, addresses) {
      forall a | a in s.nodes && s.nodes[a].active
        ensures s.nodes[a].lastChallengedPeriod == period
      {
        if a in addresses {
          ListedWasChallenged(s, env, period, addresses, a);
        }
      }
    }
  }

  /** The empty list always passes, pays nobody, and closes the period for good. */
  lemma EmptyListCloses(w: World, env: Env, period: u64, evs: seq<Event>, env': Env, addresses: seq<Text>)
    requires !w.s.Paused() && w.s.MayChallenge(env.caller) && !w.s.Stats(period).rewardsDistributed
    ensures var r := Attempt(w, env, Op.DistributeRewards(period, []));
      r.Done? && r.next.nodes == w.s.nodes && r.paid == 0
    ensures var w' := Run(Advance(w, Invoke(env, Op.DistributeRewards(period, []))), evs);
      Attempt(w', env', Op.DistributeRewards(period, addresses)).Reverted?
  {
    assert PayUpTo(w.s.nodes, w.s.config.rewardPerGbPerPeriod, period, [], 0).nodes == w.s.nodes;
    assert Attempt(w, env, Op.DistributeRewards(period, [])).Done?;
    DistributedAtMostOnce(w, env, Op.DistributeRewards(period, []), evs, env', Op.DistributeRewards(period, addresses));
  }

  /** A provider registers, the admin distributes to nobody: the call succeeds although the provider is active
      and was never challenged, and whatever happens later, nobody is ever rewarded for that period. */
  lemma UnchallengedIsShutOut(admin: Text, a: Text, period: u64, evs: seq<Event>, env': Env, addresses: seq<Text>)
    ensures var w := Advance(Genesis(admin, None), Invoke(Env(a, period, 0, 0), Op.RegisterStorageNode(1, EMPTY, [])));
      var env := Env(admin, period, 0, 0);
      var r := Attempt(w, env, Op.DistributeRewards(period, []));
      && r.Done?
      && a in r.next.nodes && r.next.nodes[a].active && r.next.nodes[a].lastChallengedPeriod == MAX64
      && r.next.challenges == map[]
      && Attempt(Run(Advance(w, Invoke(env, Op.DistributeRewards(period, []))), evs), env',
                 Op.DistributeRewards(period, addresses)).Reverted?
  {
    var w := Advance(Genesis(admin, None), Invoke(Env(a, period, 0, 0), Op.RegisterStorageNode(1, EMPTY, [])));
    EmptyListCloses(w, Env(admin, period, 0, 0), period, evs, env', addresses);
    hide Run;
  }
}
