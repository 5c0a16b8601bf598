/** The ledger as a whole: counted by node or counted by period, the counters add up to the same totals. */
module LedgerTotals {
  import opened Words
  import opened Records
  import opened Registry
  import opened Sums
  import opened Runs
  import opened Ledger
  import opened History

  ghost function Class<K(!new)>(ids: set<Text>, f: Text -> K, k: K): set<Text> {
    set id | id in ids && f(id) == k
  }

  ghost function Sizes<K(!new)>(ids: set<Text>, f: Text -> K, ks: set<K>): map<K, int> {
    map k | k in ks :: |Class(ids, f, k)|
  }

  lemma OneIdMore<K(!new)>(ids: set<Text>, f: Text -> K, ks: set<K>, id: Text)
    requires id in ids && f(id) in ks
    ensures var less := Sizes(ids - {id}, f, ks);
      Sizes(ids, f, ks) == less[f(id) := less[f(id)] + 1]
  {
    assert Class(ids, f, f(id)) == Class(ids - {id}, f, f(id)) + {id};
    forall k | k in ks && k != f(id)
      ensures Class(ids, f, k) == Class(ids - {id}, f, k)
    {
    }
  }

  /** The classes of any classification add up to the whole. */
  lemma {:induction false} ClassesPartition<K(!new)>(ids: set<Text>, f: Text -> K, ks: set<K>)
    requires forall id :: id in ids ==> f(id) in ks
    ensures Total(Sizes(ids, f, ks)) == |ids|
    decreases |ids|
  {
    if ids == {} {
      forall k | k in ks
        ensures Class(ids, f, k) == {}
      {
      }
      ZeroTotal(Sizes(ids, f, ks));
    } else {
      var id :| id in ids;
      ClassesPartition(ids - {id}, f, ks);
      OneIdMore(ids, f, ks, id);
      TotalPut(Sizes(ids - {id}, f, ks), f(id), Sizes(ids - {id}, f, ks)[f(id)] + 1);
    }
  }

  /** Counters that are the sizes of the classes, modulo 2^64, sum to the size of the whole. */
  lemma CountersSum<K(!new)>(counters: map<K, int>, ids: set<Text>, f: Text -> K)
    requires forall id :: id in ids ==> f(id) in counters
    requires forall k :: k in counters ==> counters[k] == Wrap(|Class(ids, f, k)|)
    ensures Cong(Total(counters), |ids|)
    ensures |ids| < TWO64 ==> Total(counters) == |ids|
  {
    hide Total;
    hide Cong;
    var sizes := Sizes(ids, f, counters.Keys);
    ClassesPartition(ids, f, counters.Keys);
    hide Wrap;
    forall k | k in counters
      ensures Cong(counters[k], sizes[k]) && (|ids| < TWO64 ==> counters[k] == sizes[k])
    {
      WrapIsCong(|Class(ids, f, k)|);
      SizeMonotone(Class(ids, f, k), ids);
      if |ids| < TWO64 {
        WrapSmall(|Class(ids, f, k)|);
      }
    }
    TotalCong(counters, sizes);
    if |ids| < TWO64 {
      assert counters == sizes;
    }
  }

  ghost function PassedIds(cs: Challenges): set<Text> {
    set id | id in cs && cs[id].passed
  }

  ghost function NodeOf(cs: Challenges): Text -> Text {
    id => if id in cs then cs[id].nodeAddress else EMPTY
  }

  ghost function PeriodOf(cs: Challenges): Text -> u64 {
    id => if id in cs then cs[id].issuedPeriod else 0
  }

  ghost function IssuedByNode(s: State): map<Text, int> {
    map a | a in s.nodes :: s.nodes[a].totalChallenges
  }

  ghost function PassedByNode(s: State): map<Text, int> {
    map a | a in s.nodes :: s.nodes[a].passedChallenges
  }

  ghost function IssuedByPeriod(s: State): map<u64, int> {
    map p | p in s.periods :: s.periods[p].challengesIssued
  }

  ghost function PassedByPeriod(s: State): map<u64, int> {
    map p | p in s.periods :: s.periods[p].challengesPassed
  }

  lemma NodeSums(s: State)
    requires LedgerInv(s)
    ensures Cong(Total(IssuedByNode(s)), |s.challenges|)
    ensures Cong(Total(PassedByNode(s)), |PassedIds(s.challenges)|)
    ensures |s.challenges| < TWO64 ==>
      Total(IssuedByNode(s)) == |s.challenges| && Total(PassedByNode(s)) == |PassedIds(s.challenges)|
  {
    hide Wrap;
    hide Cong;
    hide Total;
    var cs := s.challenges;
    forall a | a in s.nodes
      ensures Class(cs.Keys, NodeOf(cs), a) == Naming(cs, a)
      ensures Class(PassedIds(cs), NodeOf(cs), a) == PassedBy(cs, a)
      ensures NodeAgrees(s.nodes[a], cs, a)
    {
    }
    SizeMonotone(PassedIds(cs), cs.Keys);
    CountersSum(IssuedByNode(s), cs.Keys, NodeOf(cs));
    CountersSum(PassedByNode(s), PassedIds(cs), NodeOf(cs));
  }

  lemma PeriodSums(s: State)
    requires LedgerInv(s)
    ensures Cong(Total(IssuedByPeriod(s)), |s.challenges|)
    ensures Cong(Total(PassedByPeriod(s)), |PassedIds(s.challenges)|)
    ensures |s.challenges| < TWO64 ==>
      Total(IssuedByPeriod(s)) == |s.challenges| && Total(PassedByPeriod(s)) == |PassedIds(s.challenges)|
  {
    hide Wrap;
    hide Cong;
    hide Total;
    var cs := s.challenges;
    forall p: u64 | p in s.periods
      ensures Class(cs.Keys, PeriodOf(cs), p) == IssuedIn(cs, p)
      ensures Class(PassedIds(cs), PeriodOf(cs), p) == PassedIn(cs, p)
      ensures StatsAgree(s.periods[p], cs, p)
    {
      assert StatsAgree(s.Stats(p), cs, p);
    }
    SizeMonotone(PassedIds(cs), cs.Keys);
    CountersSum(IssuedByPeriod(s), cs.Keys, PeriodOf(cs));
    CountersSum(PassedByPeriod(s), PassedIds(cs), PeriodOf(cs));
  }

  /** In every reachable state the sums over the nodes equal the sums over the periods: modulo 2^64 always,
      exactly while there are fewer than 2^64 challenges. */
  lemma {:induction false} NodesAndPeriodsSumAlike(admin: Text, config: Option<Config>, evs: seq<Event>)
    ensures var s := Run(Genesis(admin, config), evs).s;
      && Cong(Total(IssuedByNode(s)), Total(IssuedByPeriod(s)))
      && Cong(Total(PassedByNode(s)), Total(PassedByPeriod(s)))
      && (|s.challenges| < TWO64 ==>
            && Total(IssuedByNode(s)) == Total(IssuedByPeriod(s)) == |s.challenges|
            && Total(PassedByNode(s)) == Total(PassedByPeriod(s)) == |PassedIds(s.challenges)|)
  {
    hide Cong;
    hide Total;
    var s := Run(Genesis(admin, config), evs).s;
    LedgerHolds(admin, config, evs);
    hide Run;
    hide LedgerInv;
    NodeSums(s);
    PeriodSums(s);
    CongSym(Total(IssuedByPeriod(s)), |s.challenges|);
    CongSym(Total(PassedByPeriod(s)), |PassedIds(s.challenges)|);
    CongTrans(Total(IssuedByNode(s)), |s.challenges|, Total(IssuedByPeriod(s)));
    CongTrans(Total(PassedByNode(s)), |PassedIds(s.challenges)|, Total(PassedByPeriod(s)));
  }
}
