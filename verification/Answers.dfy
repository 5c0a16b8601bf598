/** What each call answers and leaves behind, in terms of the request, the caller and the stored records alone:
    when it succeeds, what it writes, what it pays, and that a refusal names a fault that is there. */
module Answers {
  import opened Words
  import opened Records
  import opened Registry
  import opened Sums
  import opened Runs
  import opened Rewards
  import opened NodeLists
  import opened PeriodTotals
  import opened Bookings
  import opened Ledger
  import opened Aliases

  lemma Deployed(admin: Text, config: Config)
    ensures Deploy(admin, None).config == Config(1_000_000, 1, 1000, 60_000, 100)
    ensures Deploy(admin, Some(config)) == Deploy(admin, None).(config := config)
    ensures var s := Deploy(admin, None);
      && s.admin == admin && s.pauseFlag != Some(true) && s.uploaderPricePerGb == 1_000_000
      && s.nodes == map[] && s.challenges == map[] && s.periods == map[] && s.bookings == map[] && s.usage == map[]
      && s.challengers == {} && s.storageAdmins == {} && s.totalNodes == 0
  {
  }

  /** The capacity and the node count recorded for a period change by `gb` and `nodes`; nothing else in the
      statistics does. */
  ghost predicate StatsMove(s: State, s': State, period: u64, gb: int, nodes: int) {
    && s'.periods.Keys == s.periods.Keys + {period}
    && (forall p :: p in s.periods && p != period ==> s'.periods[p] == s.periods[p])
    && var was := if period in s.periods then s.periods[period] else PeriodStats(period, 0, 0, 0, 0, 0, false);
       s'.periods[period] == PeriodStats(was.period, Wrap(was.totalGbStored + gb), was.totalRewardsDistributed,
                                         Wrap(was.activeNodes + nodes), was.challengesIssued, was.challengesPassed,
                                         was.rewardsDistributed)
  }

  // ---- Providers ----

  lemma RegistrationAnswer(s: State, env: Env, gb: u64, endpoint: Text, p2pAddrs: seq<Text>)
    ensures var r := OnRegisterStorageNode(s, env, gb, endpoint, p2pAddrs);
      && (r.Done? <==>
            && s.pauseFlag != Some(true)
            && s.config.minAllocatedGb <= gb <= s.config.maxAllocatedGb
            && env.caller !in s.nodes)
      && (r.Done? ==>
            && r.paid == 0
            && r.next.nodes ==
               s.nodes[env.caller := Node(env.caller, gb, env.period, 0, 0, 0, MAX64, env.period, true)]
            && (forall a :: a != env.caller ==> (a in r.next.metadata <==> a in s.metadata))
            && (forall a :: a in s.metadata && a != env.caller ==> r.next.metadata[a] == s.metadata[a])
            && (endpoint != EMPTY || p2pAddrs != [] ==>
                  env.caller in r.next.metadata && r.next.metadata[env.caller] == Metadata(endpoint, p2pAddrs))
            && (endpoint == EMPTY && p2pAddrs == [] ==> r.next.metadata == s.metadata)
            && StatsMove(s, r.next, env.period, gb, 1))
  {
    hide Wrap;
  }

  lemma UpdateAnswer(s: State, env: Env, newGb: u64)
    ensures var r := OnUpdateStorageAllocation(s, env, newGb);
      && (r.Done? <==>
            && s.pauseFlag != Some(true)
            && s.config.minAllocatedGb <= newGb <= s.config.maxAllocatedGb
            && env.caller in s.nodes)
      && (r.Done? ==>
            && r.paid == 0
            && r.next.nodes == s.nodes[env.caller := s.nodes[env.caller].(allocatedGb := newGb)]
            && StatsMove(s, r.next, env.period, newGb - s.nodes[env.caller].allocatedGb, 0))
  {
    WrapSmall(s.Stats(env.period).activeNodes);
    hide Wrap;
  }

  /** Leaving works while the contract is paused. */
  lemma UnregistrationAnswer(s: State, env: Env)
    ensures var r := OnUnregisterStorageNode(s, env);
      && (r.Done? <==> env.caller in s.nodes && s.nodes[env.caller].active)
      && (r.Done? ==>
            && r.paid == 0
            && r.next.nodes == s.nodes[env.caller := s.nodes[env.caller].(active := false)]
            && StatsMove(s, r.next, env.period, 0 - s.nodes[env.caller].allocatedGb, -1))
  {
    hide Wrap, FindSlot;
  }

  lemma MetadataAnswer(s: State, env: Env, endpoint: Text, p2pAddrs: seq<Text>)
    ensures var r := OnUpdateProviderMetadata(s, env, endpoint, p2pAddrs);
      && (r.Done? <==> s.pauseFlag != Some(true) && env.caller in s.nodes)
      && (r.Done? ==> r.paid == 0 && r.next.metadata.Keys == s.metadata.Keys + {env.caller}
                      && r.next == s.(metadata := r.next.metadata)
                      && forall a :: a in r.next.metadata ==>
                           r.next.metadata[a] ==
                           if a == env.caller then Metadata(endpoint, p2pAddrs) else s.metadata[a])
  {
  }

  /** Every node's capacity lies between the limits. */
  ghost predicate WithinLimits(s: State, config: Config) {
    forall a :: a in s.nodes ==> config.minAllocatedGb <= s.nodes[a].allocatedGb <= config.maxAllocatedGb
  }

  lemma NodeCallWithinLimits(s: State, env: Env, b: nat, op: Op)
    requires WithinLimits(s, s.config) && Step(s, env, b, op).Done? && IsNodeCall(op)
    ensures WithinLimits(Step(s, env, b, op).next, s.config)
  {
    hide Wrap, FindSlot;
  }

  lemma CallWithinLimits(s: State, env: Env, b: nat, op: Op)
    requires WithinLimits(s, s.config) && Step(s, env, b, op).Done?
    ensures WithinLimits(Step(s, env, b, op).next, s.config)
  {
    hide Step;
    if IsNodeCall(op) {
      NodeCallWithinLimits(s, env, b, op);
    } else {
      OthersLeaveCounts(s, env, b, op);
    }
  }

  /** As long as the configuration stays, no run takes a provider's capacity out of its limits. */
  lemma {:induction false} RunWithinLimits(w: World, evs: seq<Event>, config: Config)
    requires WithinLimits(w.s, config)
    requires forall i :: 0 <= i <= |evs| ==> At(w, evs, i).s.config == config
    ensures WithinLimits(Run(w, evs).s, config)
  {
    hide Advance, Step, WithinLimits;
    if evs != [] {
      var n := |evs| - 1;
      forall i | 0 <= i <= n
        ensures At(w, evs[..n], i).s.config == config
      {
        assert evs[..n][..i] == evs[..i];
        assert At(w, evs, i).s.config == config;
      }
      RunWithinLimits(w, evs[..n], config);
      assert At(w, evs, n).s.config == config;
      EventWithinLimits(Run(w, evs[..n]), evs[n]);
    }
  }

  lemma EventWithinLimits(w: World, ev: Event)
    requires WithinLimits(w.s, w.s.config)
    ensures WithinLimits(Advance(w, ev).s, w.s.config)
  {
    hide Step, WithinLimits;
    if ev.Invoke? && Attempt(w, ev.env, ev.op).Done? {
      CallWithinLimits(w.s, ev.env, w.balance + ev.env.coins, ev.op);
    }
  }

  // ---- Challenges ----

  lemma ModIsWrap(x: int)
    ensures Wrap(x) == x % TWO64
  {
  }

  /** Who may issue challenges and distribute rewards. */
  ghost predicate Challenger(s: State, a: Text) {
    a in s.challengers || a == s.admin
  }

  lemma IssueAnswer(s: State, env: Env, id: Text, a: Text, chunkId: Text, nonce: u64)
    ensures var r := OnIssueChallenge(s, env, id, a, chunkId, nonce);
      && (r.Done? <==>
            && s.pauseFlag != Some(true) && Challenger(s, env.caller)
            && id !in s.challenges && a in s.nodes && s.nodes[a].active)
      && (r.Done? ==>
            && r.paid == 0
            && r.next.nodes.Keys == s.nodes.Keys
            && (forall b :: b in s.nodes && b != a ==> r.next.nodes[b] == s.nodes[b])
            && r.next.nodes[a] == s.nodes[a].(totalChallenges := (s.nodes[a].totalChallenges + 1) % TWO64,
                                              lastChallengedPeriod := env.period))
  {
    if a in s.nodes {
      ModIsWrap(s.nodes[a].totalChallenges + 1);
    }
    hide Wrap;
  }

  /** On the datastore, for any target: what is stored under the new id, and that nothing else is touched. */
  lemma IssuedChallenge(s: State, env: Env, id: Text, a: Text, chunkId: Text, nonce: u64)
    ensures var r := OnFlatIssue(s, env, id, a, chunkId, nonce);
      r.Done? ==>
        && r.next.challenges.Keys == s.challenges.Keys + {id} && id !in s.challenges
        && (forall id' :: id' in s.challenges ==> r.next.challenges[id'] == s.challenges[id'])
        && var timeout := s.config.challengeResponseTimeout;
           r.next.challenges[id] ==
           Challenge(id, a, chunkId, nonce, env.period, (env.now + timeout) % TWO64, false, false)
  {
    ModIsWrap(env.now + s.config.challengeResponseTimeout);
    hide Wrap;
  }

  /** A challenge is open for exactly the configured time: an expiry that lists it settles it as failed if and
      only if it comes later. */
  lemma ChallengeStaysOpen(s: State, env: Env, id: Text, a: Text, chunkId: Text, nonce: u64, later: Env)
    requires OnFlatIssue(s, env, id, a, chunkId, nonce).Done?
    requires env.now + s.config.challengeResponseTimeout < TWO64
    ensures var s' := OnFlatIssue(s, env, id, a, chunkId, nonce).next;
      var due := env.now + s.config.challengeResponseTimeout;
      var c := Challenge(id, a, chunkId, nonce, env.period, due, false, false);
      var expired := OnResolveExpiredChallenges(s', later, [id]).next.challenges;
      && id in s'.challenges && s'.challenges[id] == c
      && id in expired
      && (later.now > due ==> expired[id] == c.(resolved := true))
      && (later.now <= due ==> expired[id] == c)
  {
    IssuedChallenge(s, env, id, a, chunkId, nonce);
    var s' := OnFlatIssue(s, env, id, a, chunkId, nonce).next;
    hide OnFlatIssue;
    assert ExpireUpTo(s'.challenges, later.now, [id], 0) == s'.challenges;
    assert ExpireUpTo(s'.challenges, later.now, [id], 1) == Expire(s'.challenges, later.now, id);
  }

  /** A proof in time, from the challenged node, for an unresolved challenge, is taken; and no other. */
  lemma ProofAnswer(s: State, env: Env, id: Text, proof: Bytes)
    ensures var r := OnSubmitProof(s, env, id, proof);
      && (r.Done? <==>
            && s.pauseFlag != Some(true) && id in s.challenges && !s.challenges[id].resolved
            && env.caller == s.challenges[id].nodeAddress && env.now <= s.challenges[id].deadline)
      && (r.Done? ==>
            && r.paid == 0
            && r.next.challenges == s.challenges[id := s.challenges[id].(resolved := true, passed := proof != [])]
            && r.next.nodes.Keys == s.nodes.Keys
            && (forall b :: b in s.nodes && b != env.caller ==> r.next.nodes[b] == s.nodes[b])
            && (env.caller in s.nodes ==>
                  var was := s.nodes[env.caller];
                  r.next.nodes[env.caller] == was.(passedChallenges :=
                    if proof != [] then (was.passedChallenges + 1) % TWO64 else was.passedChallenges)))
  {
    if id in s.challenges && s.challenges[id].nodeAddress in s.nodes {
      WrapSmall(s.nodes[s.challenges[id].nodeAddress].passedChallenges);
      ModIsWrap(s.nodes[s.challenges[id].nodeAddress].passedChallenges + 1);
    }
    hide Wrap;
  }

  /** From issue to answer: with the contract not paused, the node's first proof is taken exactly until the
      deadline, and it passes exactly when it is not empty. */
  lemma ProofInTime(s: State, env: Env, id: Text, a: Text, chunkId: Text, nonce: u64, later: Env, proof: Bytes)
    requires OnIssueChallenge(s, env, id, a, chunkId, nonce).Done? && later.caller == a
    requires env.now + s.config.challengeResponseTimeout < TWO64
    ensures var r := OnSubmitProof(OnIssueChallenge(s, env, id, a, chunkId, nonce).next, later, id, proof);
      && (r.Done? <==> later.now <= env.now + s.config.challengeResponseTimeout)
      && (r.Done? ==> r.next.challenges[id].resolved && (r.next.challenges[id].passed <==> proof != []))
  {
    IssuedChallenge(s, env, id, a, chunkId, nonce);
    var s' := OnIssueChallenge(s, env, id, a, chunkId, nonce).next;
    assert s'.pauseFlag == s.pauseFlag;
    ProofAnswer(s', later, id, proof);
    hide OnSubmitProof;
  }

  // ---- Rewards ----

  lemma DistributionAnswer(s: State, env: Env, period: u64, addresses: seq<Text>)
    ensures OnDistributeRewards(s, env, period, addresses).Done? <==>
      && s.pauseFlag != Some(true) && Challenger(s, env.caller)
      && (period in s.periods ==> !s.periods[period].rewardsDistributed)
      && (forall a :: a in addresses && a in s.nodes && s.nodes[a].active ==> s.nodes[a].lastChallengedPeriod == period)
  {
    hide PayUpTo;
    if AllChallenged(s.nodes, period, addresses) {
      forall a | a in addresses && a in s.nodes && s.nodes[a].active
        ensures s.nodes[a].lastChallengedPeriod == period
      {
        var i :| 0 <= i < |addresses| && addresses[i] == a;
      }
    }
  }

  /** What the list earns a node, without wrapping. */
  ghost function Earned(s: State, addresses: seq<Text>, a: Text): nat
    requires a in s.nodes
  {
    var node := s.nodes[a];
    if node.active && node.passedChallenges == node.totalChallenges
    then multiset(addresses)[a] * (node.allocatedGb * s.config.rewardPerGbPerPeriod)
    else 0
  }

  ghost function AllEarned(s: State, addresses: seq<Text>): map<Text, int> {
    map a | a in s.nodes :: Earned(s, addresses, a)
  }

  lemma WrapTimes(x: nat, t: nat, y: int)
    ensures Wrap(y + t * Wrap(x)) == Wrap(y + t * x)
  {
    var q := x / TWO64;
    assert x == Wrap(x) + TWO64 * q;
    assert t * x == t * Wrap(x) + TWO64 * (t * q) by {
      TimesSum(t, Wrap(x), TWO64 * q);
      assert t * (TWO64 * q) == TWO64 * (t * q);
    }
    WrapPeriod(y + t * Wrap(x), t * q);
  }

  lemma TimesSum(t: int, x: int, y: int)
    ensures t * (x + y) == t * x + t * y
  {
  }

  /** One eligible node's reward, granted `t` times, against capacity times rate. */
  lemma EarnedByOne(node: Node, rate: u64, t: nat)
    ensures Wrap(node.pendingRewards + t * Reward(node, rate)) ==
            Wrap(node.pendingRewards + t * (node.allocatedGb * rate))
    ensures Cong(t * Reward(node, rate), t * (node.allocatedGb * rate))
  {
    WrapTimes(node.allocatedGb * rate, t, node.pendingRewards);
    WrapTimes(node.allocatedGb * rate, t, 0);
    var x, y := t * Reward(node, rate), t * (node.allocatedGb * rate);
    hide Reward, Wrap;
    WrapIsCong(x);
    WrapIsCong(y);
    CongSym(Wrap(x), x);
    CongTrans(x, Wrap(x), y);
  }

  /** One listing earns the node something that is not 0 once wrapped. */
  ghost predicate Earns(s: State, a: Text)
    requires a in s.nodes
  {
    var node := s.nodes[a];
    && node.active && node.passedChallenges == node.totalChallenges
    && (node.allocatedGb * s.config.rewardPerGbPerPeriod) % TWO64 > 0
  }

  /** Whoever is active with equal counters gets capacity times rate, once for each time it is listed; nobody
      else gets anything, and no other field but the last rewarded period moves. */
  lemma DistributionPays(s: State, env: Env, period: u64, addresses: seq<Text>)
    requires OnDistributeRewards(s, env, period, addresses).Done?
    ensures var r := OnDistributeRewards(s, env, period, addresses);
      && r.paid == 0
      && r.next.nodes.Keys == s.nodes.Keys
      && forall a :: a in s.nodes ==>
           && r.next.nodes[a].pendingRewards == (s.nodes[a].pendingRewards + Earned(s, addresses, a)) % TWO64
           && r.next.nodes[a] == s.nodes[a].(
                pendingRewards := r.next.nodes[a].pendingRewards,
                lastRewardedPeriod := if a in addresses && Earns(s, a) then period else s.nodes[a].lastRewardedPeriod)
  {
    var rate := s.config.rewardPerGbPerPeriod;
    var r := OnDistributeRewards(s, env, period, addresses);
    PayEffect(s.nodes, rate, period, addresses, |addresses|);
    assert addresses[..|addresses|] == addresses;
    hide OnDistributeRewards;
    forall a | a in s.nodes
      ensures r.next.nodes[a].pendingRewards == Wrap(s.nodes[a].pendingRewards + Earned(s, addresses, a))
      ensures Earns(s, a) <==> Eligible(s.nodes, rate, a)
    {
      PaidToOne(s, period, addresses, a);
      ModIsWrap(s.nodes[a].allocatedGb * rate);
    }
  }

  lemma PaidToOne(s: State, period: u64, addresses: seq<Text>, a: Text)
    requires a in s.nodes
    ensures var rate := s.config.rewardPerGbPerPeriod;
      Rewarded(s.nodes[a], rate, period, if Eligible(s.nodes, rate, a) then Count(addresses, a) else 0).pendingRewards
      == Wrap(s.nodes[a].pendingRewards + Earned(s, addresses, a))
  {
    var node, rate, t := s.nodes[a], s.config.rewardPerGbPerPeriod, multiset(addresses)[a];
    EarnedByOne(node, rate, t);
    WrapSmall(node.pendingRewards);
    hide Wrap, Reward;
    if node.active && node.passedChallenges == node.totalChallenges && Reward(node, rate) == 0 {
      assert t * Reward(node, rate) == 0;
    }
    if t == 0 {
      assert t * (node.allocatedGb * rate) == 0;
    }
  }

  lemma ShareIsEarned(s: State, addresses: seq<Text>, a: Text)
    requires a in s.nodes
    ensures Cong(Share(s.nodes, s.config.rewardPerGbPerPeriod, a, Count(addresses, a)), Earned(s, addresses, a))
  {
    var node, rate, t := s.nodes[a], s.config.rewardPerGbPerPeriod, multiset(addresses)[a];
    EarnedByOne(node, rate, t);
    CongRefl(0);
    hide Wrap, Reward, Cong;
    if Reward(node, rate) == 0 {
      assert t * Reward(node, rate) == 0;
    }
  }

  /** The total recorded for the period is what all nodes earned, modulo 2^64; the rest of its statistics, and
      all other periods, stay. */
  lemma DistributionRecords(s: State, env: Env, period: u64, addresses: seq<Text>)
    requires OnDistributeRewards(s, env, period, addresses).Done?
    ensures var s' := OnDistributeRewards(s, env, period, addresses).next;
      && s'.periods.Keys == s.periods.Keys + {period}
      && (forall p :: p in s.periods && p != period ==> s'.periods[p] == s.periods[p])
      && s'.periods[period].rewardsDistributed
      && s'.periods[period].totalRewardsDistributed == Total(AllEarned(s, addresses)) % TWO64
  {
    var rate := s.config.rewardPerGbPerPeriod;
    PaidIsGranted(s.nodes, rate, period, addresses, |addresses|);
    GrantedIsShares(s.nodes, rate, addresses, |addresses|);
    assert addresses[..|addresses|] == addresses;
    var shares, earned := Shares(s.nodes, rate, addresses), AllEarned(s, addresses);
    forall a | a in s.nodes
      ensures Cong(shares[a], earned[a])
    {
      ShareIsEarned(s, addresses, a);
    }
    hide Wrap, Cong, Share, Earned, PayUpTo, Granted;
    TotalCong(shares, earned);
    SameWrap(Total(shares), Total(earned));
  }

  lemma SameWrap(x: int, y: int)
    requires Cong(x, y)
    ensures Wrap(x) == Wrap(y) == y % TWO64
  {
    var q := (x - y) / TWO64;
    assert x == y + TWO64 * q;
    WrapPeriod(y, q);
  }

  lemma ClaimAnswer(s: State, env: Env, balance: nat)
    ensures var r := OnClaimRewards(s, env, balance);
      && (r.Done? <==>
            && s.pauseFlag != Some(true) && env.caller in s.nodes
            && 0 < s.nodes[env.caller].pendingRewards <= balance)
      && (r.Done? ==>
            && r.paid == s.nodes[env.caller].pendingRewards
            && r.next == s.(nodes := s.nodes[env.caller := s.nodes[env.caller].(pendingRewards := 0)]))
  {
  }

  // ---- Uploaders ----

  /** A booking is taken if and only if it is paid for and the capacity on offer covers the total it leads to;
      then it is what the caller has booked, and nobody else's booking moves. */
  lemma BookingAnswer(s: State, env: Env, amountGb: u64)
    requires BookingInv(s) && IndexAgrees(s)
    ensures var r := OnRegisterAsUploader(s, env, amountGb);
      && (r.Done? <==>
            && s.pauseFlag != Some(true) && amountGb > 0
            && env.coins >= (amountGb * s.uploaderPricePerGb) % TWO64
            && Wrap(Allocation(s.nodes)) >= Wrap(BookedTotal(s) - s.Booked(env.caller) + amountGb))
      && (r.Done? ==> r.paid == 0 && r.next.bookings == s.bookings[env.caller := amountGb])
  {
    TotalAllocatedIsAllocation(s);
    CheckedTotalIsNext(s, env.caller, amountGb);
    TotalPut(s.bookings, env.caller, amountGb);
    hide BookingInv, IndexAgrees;
  }

  lemma BookingIsPaid(s: State, env: Env, amountGb: u64)
    requires OnRegisterAsUploader(s, env, amountGb).Done?
    ensures amountGb > 0 && env.coins >= (amountGb * s.uploaderPricePerGb) % TWO64
  {
  }

  /** What the booking of one event costs, if one is taken. */
  ghost function CostOf(w: World, ev: Event): nat {
    if ev.Invoke? && ev.op.RegisterAsUploader? && Attempt(w, ev.env, ev.op).Done?
    then ev.op.amountGb * w.s.uploaderPricePerGb
    else 0
  }

  /** What all bookings of a run cost, each at the price then in force. */
  ghost function CostOver(w: World, evs: seq<Event>): nat {
    if evs == [] then 0
    else var front := evs[..|evs| - 1];
         CostOver(w, front) + CostOf(Run(w, front), evs[|evs| - 1])
  }

  lemma EventIsPaid(w: World, ev: Event)
    requires CostOf(w, ev) < TWO64
    ensures Advance(w, ev).received >= w.received + CostOf(w, ev)
  {
    if ev.Invoke? && ev.op.RegisterAsUploader? && Attempt(w, ev.env, ev.op).Done? {
      BookingIsPaid(w.s, ev.env, ev.op.amountGb);
      hide OnRegisterAsUploader;
    } else {
      hide Step;
    }
  }

  /** Every booking is paid for: while no single price exceeds a word, a run takes in at least what all bookings
      taken in it cost. */
  lemma {:induction false} BookingsArePaid(w: World, evs: seq<Event>)
    requires forall i :: 0 <= i < |evs| ==> CostOf(At(w, evs, i), evs[i]) < TWO64
    ensures Run(w, evs).received >= w.received + CostOver(w, evs)
  {
    hide Advance, CostOf;
    if evs != [] {
      var n := |evs| - 1;
      forall i | 0 <= i < n
        ensures CostOf(At(w, evs[..n], i), evs[..n][i]) < TWO64
      {
        assert evs[..n][..i] == evs[..i];
        assert CostOf(At(w, evs, i), evs[i]) < TWO64;
      }
      BookingsArePaid(w, evs[..n]);
      assert CostOf(At(w, evs, n), evs[n]) < TWO64;
      EventIsPaid(Run(w, evs[..n]), evs[n]);
    }
  }

  lemma RecordAnswer(s: State, env: Env, uploader: Text, size: u64)
    ensures var r := OnRecordFileUpload(s, env, uploader, size);
      && (r.Done? <==>
            && s.pauseFlag != Some(true) && env.caller in s.storageAdmins && size > 0
            && (uploader in s.storageAdmins || (uploader in s.bookings && s.bookings[uploader] > 0)))
      && (r.Done? ==>
            && r.paid == 0 && r.next == s.(usage := r.next.usage)
            && forall a :: r.next.Usage(a) == if a == uploader then (s.Usage(a) + size) % TWO64 else s.Usage(a))
  {
  }

  lemma RemoveAnswer(s: State, env: Env, uploader: Text, size: u64)
    ensures var r := OnRemoveFileUpload(s, env, uploader, size);
      && (r.Done? <==> s.pauseFlag != Some(true) && env.caller in s.storageAdmins && size > 0)
      && (r.Done? ==>
            && r.paid == 0 && r.next == s.(usage := r.next.usage)
            && forall a :: r.next.Usage(a) ==
                 if a != uploader then s.Usage(a) else if s.Usage(a) < size then 0 else s.Usage(a) - size)
  {
  }

  // ---- Administration ----

  lemma AdminAnswer(s: State, env: Env, op: Op)
    requires IsAdminCall(op)
    ensures var r := OnAdmin(s, env, op);
      && (r.Done? <==> env.caller == s.admin && (op.SetUploaderPricePerGb? ==> op.price > 0))
      && (r.Done? ==> r.paid == 0 && r.next.nodes == s.nodes && r.next.challenges == s.challenges
                      && r.next.periods == s.periods && r.next.bookings == s.bookings && r.next.usage == s.usage)
  {
  }

  /** After `SetPaused(p)` the calls that look at the pause are refused for it if and only if `p`. */
  lemma PauseDecides(s: State, env: Env, p: bool, env': Env)
    requires OnAdmin(s, env, Op.SetPaused(p)).Done?
    ensures var s' := OnAdmin(s, env, Op.SetPaused(p)).next;
      && s' == s.(pauseFlag := s'.pauseFlag)
      && (s'.Paused() <==> p)
      && (OnClaimRewards(s', env', 0) == Reverted(ContractPaused) <==> p)
  {
  }

  lemma ChallengersDecide(s: State, env: Env, a: Text)
    requires env.caller == s.admin
    ensures var added := OnAdmin(s, env, Op.AddChallenger(a)).next;
      var removed := OnAdmin(s, env, Op.RemoveChallenger(a)).next;
      && added == s.(challengers := added.challengers) && removed == s.(challengers := removed.challengers)
      && forall b ::
        && (added.MayChallenge(b) <==> b == a || Challenger(s, b))
        && (removed.MayChallenge(b) <==> b == s.admin || (b != a && Challenger(s, b)))
  {
  }

  /** Who may record uploads: nobody else's right moves. */
  lemma StorageAdminsDecide(s: State, env: Env, a: Text, env': Env, uploader: Text, size: u64)
    requires env.caller == s.admin && s.pauseFlag != Some(true) && size > 0 && s.Booked(uploader) > 0
    ensures var added := OnAdmin(s, env, Op.AddStorageAdmin(a)).next;
      var removed := OnAdmin(s, env, Op.RemoveStorageAdmin(a)).next;
      var caller := env'.caller;
      && added == s.(storageAdmins := added.storageAdmins) && removed == s.(storageAdmins := removed.storageAdmins)
      && (OnRecordFileUpload(added, env', uploader, size).Done? <==> caller == a || caller in s.storageAdmins)
      && (OnRecordFileUpload(removed, env', uploader, size).Done? <==> caller != a && caller in s.storageAdmins)
  {
    RecordAnswer(OnAdmin(s, env, Op.AddStorageAdmin(a)).next, env', uploader, size);
    RecordAnswer(OnAdmin(s, env, Op.RemoveStorageAdmin(a)).next, env', uploader, size);
    hide OnRecordFileUpload;
  }

  /** After a transfer exactly the new address is the admin. */
  lemma TransferDecides(s: State, env: Env, a: Text, env': Env, p: bool)
    requires env.caller == s.admin
    ensures var s' := OnAdmin(s, env, Op.TransferAdmin(a)).next;
      && s' == s.(admin := a)
      && (OnAdmin(s', env', Op.SetPaused(p)).Done? <==> env'.caller == a)
  {
  }

  lemma SettingsDecide(s: State, env: Env, config: Config, price: u64)
    requires env.caller == s.admin && price > 0
    ensures OnAdmin(s, env, Op.UpdateConfig(config)) == Done(s.(config := config), 0)
    ensures OnAdmin(s, env, Op.SetUploaderPricePerGb(price)) == Done(s.(uploaderPricePerGb := price), 0)
  {
  }

  // ---- What a call leaves alone ----

  /** Each part of the state moves in the calls that are about it only. */
  ghost predicate Touches(s: State, env: Env, b: nat, op: Op)
    requires Step(s, env, b, op).Done?
  {
    var r, s' := Step(s, env, b, op), Step(s, env, b, op).next;
    && (!IsAdminCall(op) ==>
          && s'.admin == s.admin && s'.config == s.config && s'.challengers == s.challengers
          && s'.storageAdmins == s.storageAdmins && s'.pauseFlag == s.pauseFlag
          && s'.uploaderPricePerGb == s.uploaderPricePerGb)
    && (!op.RegisterStorageNode? && !op.UpdateProviderMetadata? ==> s'.metadata == s.metadata)
    && (!op.RegisterStorageNode? ==> s'.nodeIndex == s.nodeIndex && s'.nodes.Keys == s.nodes.Keys)
    && (!op.RegisterStorageNode? && !op.UnregisterStorageNode? ==>
          s'.slots == s.slots && s'.totalNodes == s.totalNodes)
    && (!IsChallengeCall(op) && !op.ResolveExpiredChallenges? ==> s'.challenges == s.challenges)
    && (!op.RegisterAsUploader? ==> s'.bookings == s.bookings && s'.uploaderIndex == s.uploaderIndex)
    && (!op.RecordFileUpload? && !op.RemoveFileUpload? ==> s'.usage == s.usage)
    && (!IsNodeCall(op) && !IsChallengeCall(op) && !op.DistributeRewards? && !op.ClaimRewards? ==>
          s'.nodes == s.nodes)
    && (!IsNodeCall(op) && !IsChallengeCall(op) && !op.DistributeRewards? ==> s'.periods == s.periods)
    && (!op.ClaimRewards? ==> r.paid == 0)
  }

  lemma NodeCallTouches(s: State, env: Env, b: nat, op: Op)
    requires Step(s, env, b, op).Done? && (IsNodeCall(op) || op.UpdateProviderMetadata?)
    ensures Touches(s, env, b, op)
  {
    hide Wrap, FindSlot;
  }

  lemma ChallengeCallTouches(s: State, env: Env, b: nat, op: Op)
    requires Step(s, env, b, op).Done? && (IsChallengeCall(op) || op.ResolveExpiredChallenges? || op.ClaimRewards?)
    ensures Touches(s, env, b, op)
  {
    hide Wrap, ExpireUpTo;
  }

  lemma DistributionTouches(s: State, env: Env, b: nat, op: Op)
    requires Step(s, env, b, op).Done? && op.DistributeRewards?
    ensures Touches(s, env, b, op)
  {
    PayFrame(s.nodes, s.config.rewardPerGbPerPeriod, op.period, op.addresses, |op.addresses|);
    hide PayUpTo;
  }

  lemma OtherCallTouches(s: State, env: Env, b: nat, op: Op)
    requires Step(s, env, b, op).Done?
    requires IsAdminCall(op) || op.RegisterAsUploader? || op.RecordFileUpload? || op.RemoveFileUpload?
             || op.FundContract?
    ensures Touches(s, env, b, op)
  {
    hide Wrap;
  }

  lemma CallTouches(s: State, env: Env, b: nat, op: Op)
    requires Step(s, env, b, op).Done?
    ensures Touches(s, env, b, op)
  {
    hide Step, Touches;
    if IsNodeCall(op) || op.UpdateProviderMetadata? {
      NodeCallTouches(s, env, b, op);
    } else if IsChallengeCall(op) || op.ResolveExpiredChallenges? || op.ClaimRewards? {
      ChallengeCallTouches(s, env, b, op);
    } else if op.DistributeRewards? {
      DistributionTouches(s, env, b, op);
    } else {
      OtherCallTouches(s, env, b, op);
    }
  }

  // ---- Refusals ----

  /** The calls that a pause stops. */
  ghost predicate StoppedByPause(op: Op) {
    && !IsAdminCall(op) && !op.UnregisterStorageNode? && !op.ResolveExpiredChallenges? && !op.FundContract?
  }

  /** The capacity that a call asks for, if it is about capacity. */
  ghost function AskedGb(op: Op): Option<int> {
    match op
    case RegisterStorageNode(gb, _, _) => Some(gb)
    case UpdateStorageAllocation(newGb) => Some(newGb)
    case _ => None
  }

  /** The provider that a call is about, if it must be registered. */
  ghost function Subject(env: Env, op: Op): Option<Text> {
    match op
    case IssueChallenge(_, a, _, _) => Some(a)
    case UpdateStorageAllocation(_) => Some(env.caller)
    case UnregisterStorageNode => Some(env.caller)
    case ClaimRewards => Some(env.caller)
    case UpdateProviderMetadata(_, _) => Some(env.caller)
    case _ => None
  }

  /** Something is wrong with a call. */
  ghost predicate Fault(why: Error, s: State, env: Env, balance: nat, op: Op) {
    match why
    case ContractPaused => s.pauseFlag == Some(true) && StoppedByPause(op)
    case NotAdmin => env.caller != s.admin && IsAdminCall(op)
    case NotChallenger => !Challenger(s, env.caller) && (op.IssueChallenge? || op.DistributeRewards?)
    case NotStorageAdmin => env.caller !in s.storageAdmins && (op.RecordFileUpload? || op.RemoveFileUpload?)
    case AllocationBelowMinimum => AskedGb(op).Some? && AskedGb(op).value < s.config.minAllocatedGb
    case AllocationAboveMaximum => AskedGb(op).Some? && AskedGb(op).value > s.config.maxAllocatedGb
    case NodeAlreadyRegistered => op.RegisterStorageNode? && env.caller in s.nodes
    case NodeNotRegistered => Subject(env, op).Some? && Subject(env, op).value !in s.nodes
    case NodeInactive =>
      && (op.IssueChallenge? || op.UnregisterStorageNode?)
      && Subject(env, op).value in s.nodes && !s.nodes[Subject(env, op).value].active
    case ChallengeExists => op.IssueChallenge? && op.id in s.challenges
    case ChallengeNotFound => op.SubmitProof? && op.id !in s.challenges
    case ChallengeResolved => op.SubmitProof? && op.id in s.challenges && s.challenges[op.id].resolved
    case NotChallengedNode => op.SubmitProof? && op.id in s.challenges && s.challenges[op.id].nodeAddress != env.caller
    case DeadlinePassed => op.SubmitProof? && op.id in s.challenges && env.now > s.challenges[op.id].deadline
    case AlreadyDistributed =>
      op.DistributeRewards? && op.period in s.periods && s.periods[op.period].rewardsDistributed
    case ProviderNotChallenged =>
      op.DistributeRewards? && exists a :: a in op.addresses && a in s.nodes && s.nodes[a].active
                                           && s.nodes[a].lastChallengedPeriod != op.period
    case NothingToClaim => op.ClaimRewards? && env.caller in s.nodes && s.nodes[env.caller].pendingRewards == 0
    case InsufficientBalance =>
      op.ClaimRewards? && env.caller in s.nodes && balance < s.nodes[env.caller].pendingRewards
    case ZeroAmount =>
      || (op.RegisterAsUploader? && op.amountGb == 0)
      || ((op.RecordFileUpload? || op.RemoveFileUpload?) && op.size == 0)
      || (op.SetUploaderPricePerGb? && op.price == 0)
      || (op.FundContract? && env.coins == 0)
    case InsufficientPayment =>
      op.RegisterAsUploader? && env.coins < (op.amountGb * s.uploaderPricePerGb) % TWO64
    case InsufficientCapacity =>
      op.RegisterAsUploader? && s.TotalAllocated() < NewTotalBooked(s, env.caller, op.amountGb)
    case UploaderNotAllowed =>
      op.RecordFileUpload? && op.uploader !in s.storageAdmins && s.Booked(op.uploader) == 0
  }

  /** The reason given is a fault that is there. */
  ghost predicate TrueReason(s: State, env: Env, balance: nat, op: Op) {
    var r := Step(s, env, balance, op); r.Reverted? ==> Fault(r.why, s, env, balance, op)
  }

  lemma NodeReason(s: State, env: Env, balance: nat, op: Op)
    requires IsNodeCall(op) || op.ClaimRewards? || op.UpdateProviderMetadata?
    ensures TrueReason(s, env, balance, op)
  {
    hide FindSlot, Wrap;
  }

  lemma ChallengeReason(s: State, env: Env, balance: nat, op: Op)
    requires IsChallengeCall(op) || op.ResolveExpiredChallenges? || op.DistributeRewards?
    ensures TrueReason(s, env, balance, op)
  {
    hide PayUpTo, ExpireUpTo, Wrap;
    if op.DistributeRewards? && !AllChallenged(s.nodes, op.period, op.addresses) {
      var i :| 0 <= i < |op.addresses| && op.addresses[i] in s.nodes && s.nodes[op.addresses[i]].active
               && s.nodes[op.addresses[i]].lastChallengedPeriod != op.period;
      assert op.addresses[i] in op.addresses;
    }
  }

  lemma UploaderReason(s: State, env: Env, balance: nat, op: Op)
    requires op.RegisterAsUploader? || op.RecordFileUpload? || op.RemoveFileUpload? || op.FundContract?
    ensures TrueReason(s, env, balance, op)
  {
  }

  lemma AdminReason(s: State, env: Env, balance: nat, op: Op)
    requires IsAdminCall(op)
    ensures TrueReason(s, env, balance, op)
  {
  }

  lemma FaultRefusesNode(why: Error, s: State, env: Env, balance: nat, op: Op)
    requires IsNodeCall(op) || op.ClaimRewards? || op.UpdateProviderMetadata?
    requires Fault(why, s, env, balance, op)
    ensures Step(s, env, balance, op).Reverted?
  {
    hide FindSlot, Wrap;
  }

  lemma FaultRefusesChallenge(why: Error, s: State, env: Env, balance: nat, op: Op)
    requires IsChallengeCall(op) || op.ResolveExpiredChallenges? || op.DistributeRewards?
    requires Fault(why, s, env, balance, op)
    ensures Step(s, env, balance, op).Reverted?
  {
    hide PayUpTo, ExpireUpTo, Wrap;
    if op.DistributeRewards? {
      DistributionAnswer(s, env, op.period, op.addresses);
      hide OnDistributeRewards;
    }
  }

  lemma FaultRefusesUploader(why: Error, s: State, env: Env, balance: nat, op: Op)
    requires op.RegisterAsUploader? || op.RecordFileUpload? || op.RemoveFileUpload? || op.FundContract?
    requires Fault(why, s, env, balance, op)
    ensures Step(s, env, balance, op).Reverted?
  {
  }

  lemma FaultRefusesAdmin(why: Error, s: State, env: Env, balance: nat, op: Op)
    requires IsAdminCall(op) && Fault(why, s, env, balance, op)
    ensures Step(s, env, balance, op).Reverted?
  {
  }

  lemma FaultRefuses(why: Error, s: State, env: Env, balance: nat, op: Op)
    requires Fault(why, s, env, balance, op)
    ensures Step(s, env, balance, op).Reverted?
  {
    hide Fault, Step;
    if IsNodeCall(op) || op.ClaimRewards? || op.UpdateProviderMetadata? {
      FaultRefusesNode(why, s, env, balance, op);
    } else if IsChallengeCall(op) || op.ResolveExpiredChallenges? || op.DistributeRewards? {
      FaultRefusesChallenge(why, s, env, balance, op);
    } else if IsAdminCall(op) {
      FaultRefusesAdmin(why, s, env, balance, op);
    } else {
      FaultRefusesUploader(why, s, env, balance, op);
    }
  }

  lemma ReasonIsTrue(s: State, env: Env, balance: nat, op: Op)
    ensures TrueReason(s, env, balance, op)
  {
    hide TrueReason;
    if IsNodeCall(op) || op.ClaimRewards? || op.UpdateProviderMetadata? {
      NodeReason(s, env, balance, op);
    } else if IsChallengeCall(op) || op.ResolveExpiredChallenges? || op.DistributeRewards? {
      ChallengeReason(s, env, balance, op);
    } else if IsAdminCall(op) {
      AdminReason(s, env, balance, op);
    } else {
      UploaderReason(s, env, balance, op);
    }
  }

  /** Any call is refused if and only if something is wrong with it, and then for something that is. */
  lemma RefusedIffFaulty(s: State, env: Env, balance: nat, op: Op)
    ensures var r := Step(s, env, balance, op);
      && (r.Reverted? <==> exists why :: Fault(why, s, env, balance, op))
      && (r.Reverted? ==> Fault(r.why, s, env, balance, op))
  {
    ReasonIsTrue(s, env, balance, op);
    hide Fault, Step;
    if why :| Fault(why, s, env, balance, op) {
      FaultRefuses(why, s, env, balance, op);
    }
  }
}
