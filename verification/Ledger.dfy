/** The challenge ledger: challenge records against the counters of nodes and of periods. */
module Ledger {
  import opened Words
  import opened Records
  import opened Registry

  type Challenges = map<Text, Challenge>

  ghost function Naming(cs: Challenges, a: Text): set<Text> {
    set id | id in cs && cs[id].nodeAddress == a
  }

  ghost function IssuedIn(cs: Challenges, p: u64): set<Text> {
    set id | id in cs && cs[id].issuedPeriod == p
  }

  ghost function PassedBy(cs: Challenges, a: Text): set<Text> {
    set id | id in cs && cs[id].nodeAddress == a && cs[id].passed
  }

  ghost function PassedIn(cs: Challenges, p: u64): set<Text> {
    set id | id in cs && cs[id].issuedPeriod == p && cs[id].passed
  }

  ghost predicate NodeAgrees(node: Node, cs: Challenges, a: Text) {
    && node.totalChallenges == Wrap(|Naming(cs, a)|)
    && node.passedChallenges == Wrap(|PassedBy(cs, a)|)
  }

  ghost predicate StatsAgree(stats: PeriodStats, cs: Challenges, p: u64) {
    && stats.challengesIssued == Wrap(|IssuedIn(cs, p)|)
    && stats.challengesPassed == Wrap(|PassedIn(cs, p)|)
  }

  /** Every counter is the number of the records it stands for, modulo 2^64. */
  ghost predicate CountersAgree(s: State) {
    && (forall a :: a in s.nodes ==> NodeAgrees(s.nodes[a], s.challenges, a))
    && (forall p: u64 :: StatsAgree(s.Stats(p), s.challenges, p))
  }

  ghost predicate Challenged(cs: Challenges, a: Text, p: u64) {
    exists id :: id in cs && cs[id].nodeAddress == a && cs[id].issuedPeriod == p
  }

  ghost predicate WellLinked(s: State) {
    && (forall id :: id in s.challenges ==>
          && s.challenges[id].nodeAddress in s.nodes
          && s.challenges[id].issuedPeriod in s.periods
          && (s.challenges[id].passed ==> s.challenges[id].resolved))
    && (forall a :: a in s.nodes && s.nodes[a].lastChallengedPeriod != MAX64
          ==> Challenged(s.challenges, a, s.nodes[a].lastChallengedPeriod))
    && (forall id :: id in s.challenges ==> LatestIsStored(s, s.challenges[id].nodeAddress))
  }

  /** The node is registered and one of its challenges was issued in its last challenged period. */
  ghost predicate LatestIsStored(s: State, a: Text) {
    a in s.nodes && Challenged(s.challenges, a, s.nodes[a].lastChallengedPeriod)
  }

  ghost predicate LedgerInv(s: State) {
    CountersAgree(s) && WellLinked(s)
  }

  // ---- One step ----

  /** A challenge after an expiry run at time `now` that did or did not list its id. */
  function Expired(c: Challenge, now: u64, listed: bool): Challenge {
    if listed && !c.resolved && now > c.deadline then c.(resolved := true, passed := false) else c
  }

  /** What an expiry loop leaves alone, and what it settles: for every list of ids, in any order. */
  lemma {:induction false} ExpireEffect(cs: Challenges, now: u64, ids: seq<Text>, n: nat)
    requires n <= |ids|
    ensures ExpireUpTo(cs, now, ids, n).Keys == cs.Keys
    ensures forall id :: id in cs ==> ExpireUpTo(cs, now, ids, n)[id] == Expired(cs[id], now, id in ids[..n])
  {
    if n > 0 {
      ExpireEffect(cs, now, ids, n - 1);
      assert ids[..n] == ids[..n - 1] + [ids[n - 1]];
    }
  }

  /** `k` more when `c`. */
  function Plus(n: nat, c: bool): nat {
    if c then n + 1 else n
  }

  /** Adding a record for a fresh id adds that id to exactly its own classes. */
  lemma AddToNode(cs: Challenges, id: Text, c: Challenge, a: Text)
    requires id !in cs && !c.passed
    ensures |Naming(cs[id := c], a)| == Plus(|Naming(cs, a)|, a == c.nodeAddress)
    ensures PassedBy(cs[id := c], a) == PassedBy(cs, a)
  {
    if a == c.nodeAddress {
      assert Naming(cs[id := c], a) == Naming(cs, a) + {id};
    } else {
      assert Naming(cs[id := c], a) == Naming(cs, a);
    }
  }

  lemma AddToPeriod(cs: Challenges, id: Text, c: Challenge, p: u64)
    requires id !in cs && !c.passed
    ensures |IssuedIn(cs[id := c], p)| == Plus(|IssuedIn(cs, p)|, p == c.issuedPeriod)
    ensures PassedIn(cs[id := c], p) == PassedIn(cs, p)
  {
    if p == c.issuedPeriod {
      assert IssuedIn(cs[id := c], p) == IssuedIn(cs, p) + {id};
    } else {
      assert IssuedIn(cs[id := c], p) == IssuedIn(cs, p);
    }
  }

  /** Marking a challenge as passed adds its id to the passed classes of its node and period. */
  lemma MarkForNode(cs: Challenges, id: Text, c: Challenge, a: Text)
    requires id in cs && !cs[id].passed && c == cs[id].(resolved := true, passed := true)
    ensures Naming(cs[id := c], a) == Naming(cs, a)
    ensures |PassedBy(cs[id := c], a)| == Plus(|PassedBy(cs, a)|, a == c.nodeAddress)
  {
    if a == c.nodeAddress {
      assert PassedBy(cs[id := c], a) == PassedBy(cs, a) + {id};
    } else {
      assert PassedBy(cs[id := c], a) == PassedBy(cs, a);
    }
  }

  lemma MarkForPeriod(cs: Challenges, id: Text, c: Challenge, p: u64)
    requires id in cs && !cs[id].passed && c == cs[id].(resolved := true, passed := true)
    ensures IssuedIn(cs[id := c], p) == IssuedIn(cs, p)
    ensures |PassedIn(cs[id := c], p)| == Plus(|PassedIn(cs, p)|, p == c.issuedPeriod)
  {
    if p == c.issuedPeriod {
      assert PassedIn(cs[id := c], p) == PassedIn(cs, p) + {id};
    } else {
      assert PassedIn(cs[id := c], p) == PassedIn(cs, p);
    }
  }

  /** Same ids, naming the same nodes and periods, passed alike. */
  ghost predicate SameRecords(cs: Challenges, cs': Challenges) {
    && cs.Keys == cs'.Keys
    && forall id :: id in cs ==>
         && cs'[id].nodeAddress == cs[id].nodeAddress
         && cs'[id].issuedPeriod == cs[id].issuedPeriod
         && cs'[id].passed == cs[id].passed
  }

  lemma SameClasses(cs: Challenges, cs': Challenges, a: Text, p: u64)
    requires SameRecords(cs, cs')
    ensures Naming(cs', a) == Naming(cs, a) && PassedBy(cs', a) == PassedBy(cs, a)
    ensures IssuedIn(cs', p) == IssuedIn(cs, p) && PassedIn(cs', p) == PassedIn(cs, p)
  {
  }

  lemma ChallengedKept(cs: Challenges, cs': Challenges, a: Text, p: u64)
    requires forall id :: id in cs ==>
      id in cs' && cs'[id].nodeAddress == cs[id].nodeAddress && cs'[id].issuedPeriod == cs[id].issuedPeriod
    requires Challenged(cs, a, p)
    ensures Challenged(cs', a, p)
  {
    var id :| id in cs && cs[id].nodeAddress == a && cs[id].issuedPeriod == p;
    assert cs'[id].nodeAddress == a;
  }

  /** Same ids, naming the same nodes and periods. */
  ghost predicate SameTargets(cs: Challenges, cs': Challenges) {
    && cs.Keys == cs'.Keys
    && forall id :: id in cs ==>
         cs'[id].nodeAddress == cs[id].nodeAddress && cs'[id].issuedPeriod == cs[id].issuedPeriod
  }

  /** Nobody is dropped, and who was there was last challenged when it was. */
  ghost predicate SameLatest(nodes: map<Text, Node>, nodes': map<Text, Node>) {
    forall a :: a in nodes ==> a in nodes' && nodes'[a].lastChallengedPeriod == nodes[a].lastChallengedPeriod
  }

  lemma LinksKept(s: State, s': State)
    requires WellLinked(s)
    requires SameTargets(s.challenges, s'.challenges) && SameLatest(s.nodes, s'.nodes)
    requires forall a :: a in s'.nodes && a !in s.nodes ==> s'.nodes[a].lastChallengedPeriod == MAX64
    requires forall id :: id in s'.challenges && s'.challenges[id].passed ==> s'.challenges[id].resolved
    requires s.periods.Keys <= s'.periods.Keys
    ensures WellLinked(s')
  {
    forall a | a in s'.nodes && s'.nodes[a].lastChallengedPeriod != MAX64
      ensures Challenged(s'.challenges, a, s'.nodes[a].lastChallengedPeriod)
    {
      ChallengedKept(s.challenges, s'.challenges, a, s.nodes[a].lastChallengedPeriod);
    }
    forall id | id in s'.challenges
      ensures LatestIsStored(s', s'.challenges[id].nodeAddress)
    {
      var a := s.challenges[id].nodeAddress;
      assert LatestIsStored(s, a);
      ChallengedKept(s.challenges, s'.challenges, a, s.nodes[a].lastChallengedPeriod);
    }
  }

  lemma IssueKeepsCounters(s: State, env: Env, id: Text, nodeAddress: Text, chunkId: Text, nonce: u64)
    requires LedgerInv(s)
    ensures var r := OnIssueChallenge(s, env, id, nodeAddress, chunkId, nonce); r.Done? ==> CountersAgree(r.next)
  {
    hide Wrap, WellLinked, Naming, PassedBy, IssuedIn, PassedIn;
    var r := OnIssueChallenge(s, env, id, nodeAddress, chunkId, nonce);
    if r.Done? {
      var cs, c := s.challenges, r.next.challenges[id];
      WrapAdd(|Naming(cs, nodeAddress)|, 1);
      WrapAdd(|IssuedIn(cs, env.period)|, 1);
      forall a | a in r.next.nodes
        ensures NodeAgrees(r.next.nodes[a], r.next.challenges, a)
      {
        assert NodeAgrees(s.nodes[a], cs, a);
        AddToNode(cs, id, c, a);
      }
      forall p: u64
        ensures StatsAgree(r.next.Stats(p), r.next.challenges, p)
      {
        assert StatsAgree(s.Stats(p), cs, p);
        AddToPeriod(cs, id, c, p);
      }
    }
  }

  /** A new challenge becomes the latest of its node. */
  lemma AddedLink(s: State, s': State, id: Text, c: Challenge)
    requires WellLinked(s) && id !in s.challenges && s'.challenges == s.challenges[id := c]
    requires c.nodeAddress in s'.nodes && s'.nodes[c.nodeAddress].lastChallengedPeriod == c.issuedPeriod
    requires forall a :: a in s.nodes && a != c.nodeAddress ==> a in s'.nodes && s'.nodes[a] == s.nodes[a]
    requires forall a :: a in s'.nodes && a != c.nodeAddress ==> a in s.nodes
    requires !c.passed && s.periods.Keys + {c.issuedPeriod} <= s'.periods.Keys
    ensures WellLinked(s')
  {
    assert LatestIsStored(s', c.nodeAddress) by {
      assert s'.challenges[id] == c;
    }
    forall a | a != c.nodeAddress && LatestIsStored(s, a)
      ensures LatestIsStored(s', a)
    {
      ChallengedKept(s.challenges, s'.challenges, a, s.nodes[a].lastChallengedPeriod);
    }
    forall a | a in s'.nodes && s'.nodes[a].lastChallengedPeriod != MAX64
      ensures LatestIsStored(s', a)
    {
      if a != c.nodeAddress {
        assert LatestIsStored(s, a);
      }
    }
  }

  lemma IssueKeepsLinks(s: State, env: Env, id: Text, nodeAddress: Text, chunkId: Text, nonce: u64)
    requires WellLinked(s)
    ensures var r := OnIssueChallenge(s, env, id, nodeAddress, chunkId, nonce); r.Done? ==> WellLinked(r.next)
  {
    hide Wrap, WellLinked;
    var r := OnIssueChallenge(s, env, id, nodeAddress, chunkId, nonce);
    if r.Done? {
      AddedLink(s, r.next, id, r.next.challenges[id]);
    }
  }

  lemma SubmitKeepsNodes(s: State, env: Env, id: Text, proof: Bytes, a: Text)
    requires CountersAgree(s) && OnSubmitProof(s, env, id, proof).Done? && !s.challenges[id].passed
    requires a in s.nodes
    ensures var s' := OnSubmitProof(s, env, id, proof).next;
      a in s'.nodes && NodeAgrees(s'.nodes[a], s'.challenges, a)
  {
    hide Wrap, Naming, PassedBy, IssuedIn, PassedIn;
    WrapAdd(|PassedBy(s.challenges, a)|, if |proof| > 0 then 1 else 0);
    assert NodeAgrees(s.nodes[a], s.challenges, a);
    SettleClasses(s.challenges, id, |proof| > 0, a, 0);
  }

  lemma SubmitKeepsPeriods(s: State, env: Env, id: Text, proof: Bytes, p: u64)
    requires CountersAgree(s) && OnSubmitProof(s, env, id, proof).Done? && !s.challenges[id].passed
    ensures var s' := OnSubmitProof(s, env, id, proof).next; StatsAgree(s'.Stats(p), s'.challenges, p)
  {
    hide Wrap, Naming, PassedBy, IssuedIn, PassedIn;
    WrapAdd(|PassedIn(s.challenges, p)|, if |proof| > 0 then 1 else 0);
    assert StatsAgree(s.Stats(p), s.challenges, p);
    SettleClasses(s.challenges, id, |proof| > 0, EMPTY, p);
  }

  lemma SubmitKeepsCounters(s: State, env: Env, id: Text, proof: Bytes)
    requires LedgerInv(s)
    ensures var r := OnSubmitProof(s, env, id, proof); r.Done? ==> CountersAgree(r.next)
  {
    if OnSubmitProof(s, env, id, proof).Done? {
      var s' := OnSubmitProof(s, env, id, proof).next;
      assert !s.challenges[id].passed;
      forall a | a in s'.nodes
        ensures NodeAgrees(s'.nodes[a], s'.challenges, a)
      {
        assert a in s.nodes;
        SubmitKeepsNodes(s, env, id, proof, a);
      }
      hide OnSubmitProof, NodeAgrees, StatsAgree;
      forall p: u64
        ensures StatsAgree(s'.Stats(p), s'.challenges, p)
      {
        SubmitKeepsPeriods(s, env, id, proof, p);
      }
    }
  }

  lemma SettleClasses(cs: Challenges, id: Text, valid: bool, a: Text, p: u64)
    requires id in cs && !cs[id].passed
    ensures var cs' := cs[id := cs[id].(resolved := true, passed := valid)];
      && Naming(cs', a) == Naming(cs, a)
      && IssuedIn(cs', p) == IssuedIn(cs, p)
      && |PassedBy(cs', a)| == Plus(|PassedBy(cs, a)|, valid && a == cs[id].nodeAddress)
      && |PassedIn(cs', p)| == Plus(|PassedIn(cs, p)|, valid && p == cs[id].issuedPeriod)
  {
    var c := cs[id].(resolved := true, passed := valid);
    if valid {
      MarkForNode(cs, id, c, a);
      MarkForPeriod(cs, id, c, p);
      hide Naming, PassedBy, IssuedIn, PassedIn;
    } else {
      SameClasses(cs, cs[id := c], a, p);
    }
  }

  lemma PassedAreResolved(s: State)
    requires WellLinked(s)
    ensures forall id :: id in s.challenges && s.challenges[id].passed ==> s.challenges[id].resolved
  {
  }

  lemma SubmitKeepsLinks(s: State, env: Env, id: Text, proof: Bytes)
    requires WellLinked(s)
    ensures var r := OnSubmitProof(s, env, id, proof); r.Done? ==> WellLinked(r.next)
  {
    hide Wrap;
    var r := OnSubmitProof(s, env, id, proof);
    if r.Done? {
      assert s.challenges[id].issuedPeriod in s.periods;
      hide WellLinked, LatestIsStored;
      PassedAreResolved(s);
      LinksKept(s, r.next);
    }
  }

  lemma SameRecordsKeepCounters(s: State, s': State)
    requires CountersAgree(s) && SameRecords(s.challenges, s'.challenges)
    requires s'.nodes == s.nodes && s'.periods == s.periods
    ensures CountersAgree(s')
  {
    hide Wrap, SameRecords, Naming, PassedBy, IssuedIn, PassedIn;
    forall a | a in s'.nodes
      ensures NodeAgrees(s'.nodes[a], s'.challenges, a)
    {
      SameClasses(s.challenges, s'.challenges, a, 0);
      assert NodeAgrees(s.nodes[a], s.challenges, a);
    }
    forall p: u64
      ensures StatsAgree(s'.Stats(p), s'.challenges, p)
    {
      SameClasses(s.challenges, s'.challenges, EMPTY, p);
      assert StatsAgree(s.Stats(p), s.challenges, p);
    }
  }

  lemma ResolveKeepsCounters(s: State, env: Env, ids: seq<Text>)
    requires LedgerInv(s)
    ensures CountersAgree(OnResolveExpiredChallenges(s, env, ids).next)
  {
    hide CountersAgree;
    ExpireEffect(s.challenges, env.now, ids, |ids|);
    SameRecordsKeepCounters(s, OnResolveExpiredChallenges(s, env, ids).next);
  }

  lemma ResolveKeepsLinks(s: State, env: Env, ids: seq<Text>)
    requires WellLinked(s)
    ensures WellLinked(OnResolveExpiredChallenges(s, env, ids).next)
  {
    var s' := OnResolveExpiredChallenges(s, env, ids).next;
    ExpireEffect(s.challenges, env.now, ids, |ids|);
    PassedAreResolved(s);
    hide WellLinked;
    LinksKept(s, s');
  }

  /** A payout touches pending rewards and the last rewarded period, nothing else. */
  lemma {:induction false} PayFrame(nodes: map<Text, Node>, rate: u64, period: u64, addresses: seq<Text>, n: nat)
    requires n <= |addresses|
    ensures var after := PayUpTo(nodes, rate, period, addresses, n).nodes;
      && after.Keys == nodes.Keys
      && forall a :: a in nodes ==>
           after[a] == nodes[a].(pendingRewards := after[a].pendingRewards,
                                 lastRewardedPeriod := after[a].lastRewardedPeriod)
  {
    if n > 0 {
      PayFrame(nodes, rate, period, addresses, n - 1);
    }
  }

  /** Calls that leave every challenge, and the counters of every node and period, as they were. */
  ghost predicate LedgerUntouched(s: State, s': State) {
    && s'.challenges == s.challenges
    && s.nodes.Keys <= s'.nodes.Keys
    && s.periods.Keys <= s'.periods.Keys
    && (forall a :: a in s'.nodes ==>
          if a in s.nodes then
            && s'.nodes[a].totalChallenges == s.nodes[a].totalChallenges
            && s'.nodes[a].passedChallenges == s.nodes[a].passedChallenges
            && s'.nodes[a].lastChallengedPeriod == s.nodes[a].lastChallengedPeriod
          else
            && s'.nodes[a].totalChallenges == s'.nodes[a].passedChallenges == 0
            && s'.nodes[a].lastChallengedPeriod == MAX64)
    && (forall p: u64 ::
          && s'.Stats(p).challengesIssued == s.Stats(p).challengesIssued
          && s'.Stats(p).challengesPassed == s.Stats(p).challengesPassed)
  }

  lemma UntouchedKeepsLedger(s: State, s': State)
    requires LedgerInv(s) && LedgerUntouched(s, s')
    ensures LedgerInv(s')
  {
    LinksKept(s, s');
    hide WellLinked;
    forall a | a in s'.nodes
      ensures NodeAgrees(s'.nodes[a], s'.challenges, a)
    {
      if a in s.nodes {
        assert NodeAgrees(s.nodes[a], s.challenges, a);
      } else {
        assert Naming(s.challenges, a) == {} && PassedBy(s.challenges, a) == {};
      }
    }
    forall p: u64
      ensures StatsAgree(s'.Stats(p), s'.challenges, p)
    {
      assert StatsAgree(s.Stats(p), s.challenges, p);
    }
  }

  lemma LedgerStep(s: State, env: Env, b: nat, op: Op)
    requires LedgerInv(s)
    ensures Step(s, env, b, op).Done? ==> LedgerInv(Step(s, env, b, op).next)
  {
    match op
    case IssueChallenge(id, a, chunkId, nonce) =>
      IssueKeepsCounters(s, env, id, a, chunkId, nonce);
      IssueKeepsLinks(s, env, id, a, chunkId, nonce);
    case SubmitProof(id, proof) =>
      SubmitKeepsCounters(s, env, id, proof);
      SubmitKeepsLinks(s, env, id, proof);
    case ResolveExpiredChallenges(ids) =>
      ResolveKeepsCounters(s, env, ids);
      ResolveKeepsLinks(s, env, ids);
    case _ =>
      OthersLeaveLedger(s, env, b, op);
      if Step(s, env, b, op).Done? {
        UntouchedKeepsLedger(s, Step(s, env, b, op).next);
      }
  }

  lemma NodeCallsLeaveLedger(s: State, env: Env, b: nat, op: Op)
    requires IsNodeCall(op)
    ensures Step(s, env, b, op).Done? ==> LedgerUntouched(s, Step(s, env, b, op).next)
  {
    hide Wrap;
  }

  lemma DistributionLeavesLedger(s: State, env: Env, b: nat, op: Op)
    requires op.DistributeRewards?
    ensures Step(s, env, b, op).Done? ==> LedgerUntouched(s, Step(s, env, b, op).next)
  {
    hide Wrap, PayUpTo;
    PayFrame(s.nodes, s.config.rewardPerGbPerPeriod, op.period, op.addresses, |op.addresses|);
  }

  lemma OthersLeaveLedger(s: State, env: Env, b: nat, op: Op)
    requires !IsChallengeCall(op) && !op.ResolveExpiredChallenges?
    ensures Step(s, env, b, op).Done? ==> LedgerUntouched(s, Step(s, env, b, op).next)
  {
    if IsNodeCall(op) {
      NodeCallsLeaveLedger(s, env, b, op);
      hide Step;
    } else if op.DistributeRewards? {
      DistributionLeavesLedger(s, env, b, op);
      hide Step;
    } else if op.ClaimRewards? {
      hide OnDistributeRewards;
    } else {
      RestLeavesNodes(s, env, b, op);
      hide Step;
    }
  }

  lemma RestLeavesNodes(s: State, env: Env, b: nat, op: Op)
    requires !IsNodeCall(op) && !IsChallengeCall(op)
    requires !op.ResolveExpiredChallenges? && !op.DistributeRewards? && !op.ClaimRewards?
    ensures Step(s, env, b, op).Done? ==>
      var s' := Step(s, env, b, op).next;
      s'.nodes == s.nodes && s'.periods == s.periods && s'.challenges == s.challenges
  {
  }
}
