/** The redundant lists of providers: the `active` flags, the enumeration slots `node_idx_0 ..`
    with their count, and the node index; and the period statistics that count active nodes. */
module NodeLists {
  import opened Words
  import opened Records
  import opened Registry
  import opened Sums
  import opened Runs
  import opened Ledger
  import opened History

  ghost function Active(s: State): set<Text> {
    set a | a in s.nodes && s.nodes[a].active
  }

  /** The slots in use. */
  ghost function Listed(s: State): seq<Text> {
    seq(s.totalNodes, i requires 0 <= i < s.totalNodes => s.SlotAt(i))
  }

  ghost predicate SlotsFilled(s: State) {
    forall i :: 0 <= i < s.totalNodes ==> i in s.slots
  }

  /** The slots in use hold each active node exactly once. */
  ghost predicate SlotsAgree(s: State) {
    && s.totalNodes == |Active(s)|
    && SlotsFilled(s)
    && Distinct(Listed(s))
    && (forall a :: a in Listed(s) <==> a in Active(s))
  }

  /** The node index holds every address ever registered exactly once. */
  ghost predicate IndexAgrees(s: State) {
    && Distinct(s.nodeIndex)
    && (forall a :: a in s.nodeIndex <==> a in s.nodes)
  }

  /** Counting slots in a `u64` is sound as long as there are fewer than 2^64 nodes. */
  ghost predicate ListsInv(s: State) {
    IndexAgrees(s) && (|s.nodes| < TWO64 ==> SlotsAgree(s))
  }

  lemma FindSlotSound(s: State, a: Text, i: nat)
    requires i <= s.totalNodes
    ensures var k := FindSlot(s, a, i);
      && (k < s.totalNodes ==> s.SlotAt(k) == a)
      && forall j :: i <= j < k ==> s.SlotAt(j) != a
    decreases s.totalNodes - i
  {
    if i < s.totalNodes && s.SlotAt(i) != a {
      FindSlotSound(s, a, i + 1);
    }
  }

  lemma AppendOne(xs: seq<Text>, a: Text)
    requires Distinct(xs) && a !in xs
    ensures Distinct(xs + [a])
    ensures forall x :: x in xs + [a] <==> x in xs || x == a
  {
  }

  /** Overwriting position `k` with the last element and dropping the last one removes `xs[k]` only. */
  lemma SwapRemove(xs: seq<Text>, k: nat)
    requires Distinct(xs) && k < |xs|
    ensures var ys := xs[k := xs[|xs| - 1]][..|xs| - 1];
      Distinct(ys) && forall x :: x in ys <==> x in xs && x != xs[k]
  {
    var n := |xs| - 1;
    var ys := xs[k := xs[n]][..n];
    forall x | x in xs && x != xs[k]
      ensures x in ys
    {
      var i :| 0 <= i <= n && xs[i] == x;
      assert ys[if i == n then k else i] == x;
    }
  }

  lemma RegisterLists(s: State, env: Env, gb: u64, endpoint: Text, p2pAddrs: seq<Text>)
    requires s.totalNodes < MAX64
    requires OnRegisterStorageNode(s, env, gb, endpoint, p2pAddrs).Done?
    ensures var s' := OnRegisterStorageNode(s, env, gb, endpoint, p2pAddrs).next;
      && s'.totalNodes == s.totalNodes + 1
      && Listed(s') == Listed(s) + [env.caller]
      && Active(s') == Active(s) + {env.caller}
      && (SlotsFilled(s) ==> SlotsFilled(s'))
  {
    WrapSmall(s.totalNodes + 1);
  }

  lemma RegisterHasRoom(s: State, a: Text, node: Node)
    requires a !in s.nodes && |s.nodes[a := node]| < TWO64
    ensures |Active(s)| < MAX64
  {
    assert s.nodes[a := node].Keys == s.nodes.Keys + {a};
    SizeMonotone(Active(s), s.nodes.Keys);
  }

  lemma RegisterKeepsSlots(s: State, env: Env, gb: u64, endpoint: Text, p2pAddrs: seq<Text>)
    requires SlotsAgree(s)
    requires var r := OnRegisterStorageNode(s, env, gb, endpoint, p2pAddrs); r.Done? && |r.next.nodes| < TWO64
    ensures SlotsAgree(OnRegisterStorageNode(s, env, gb, endpoint, p2pAddrs).next)
  {
    hide Wrap;
    RegisterHasRoom(s, env.caller, NewNode(env.caller, gb, env.period));
    RegisterLists(s, env, gb, endpoint, p2pAddrs);
    assert env.caller !in Active(s);
    hide OnRegisterStorageNode;
    OneMoreSlot(s, OnRegisterStorageNode(s, env, gb, endpoint, p2pAddrs).next, env.caller);
  }

  lemma OneMoreSlot(s: State, s': State, a: Text)
    requires SlotsAgree(s) && SlotsFilled(s') && a !in Active(s)
    requires s'.totalNodes == s.totalNodes + 1
    requires Listed(s') == Listed(s) + [a] && Active(s') == Active(s) + {a}
    ensures SlotsAgree(s')
  {
    hide SlotsFilled;
    hide Active;
    hide Listed;
    AppendOne(Listed(s), a);
  }

  /** Removal by swapping with the last slot. */
  lemma UnregisterLists(s: State, env: Env)
    requires SlotsAgree(s) && OnUnregisterStorageNode(s, env).Done?
    ensures var s', k := OnUnregisterStorageNode(s, env).next, FindSlot(s, env.caller, 0);
      && k < s.totalNodes
      && Listed(s)[k] == env.caller
      && s'.totalNodes == s.totalNodes - 1
      && Listed(s') == Listed(s)[k := Listed(s)[s.totalNodes - 1]][..s.totalNodes - 1]
      && Active(s') == Active(s) - {env.caller}
  {
    FindSlotSound(s, env.caller, 0);
    assert env.caller in Active(s);
    var m :| 0 <= m < s.totalNodes && Listed(s)[m] == env.caller;
    assert s.SlotAt(m) == env.caller;
    WrapSmall(s.totalNodes - 1);
  }

  lemma UnregisterKeepsSlots(s: State, env: Env)
    requires SlotsAgree(s) && OnUnregisterStorageNode(s, env).Done?
    ensures SlotsAgree(OnUnregisterStorageNode(s, env).next)
  {
    hide Wrap;
    UnregisterLists(s, env);
    SwapRemove(Listed(s), FindSlot(s, env.caller, 0));
  }

  /** Calls that change no list, no active flag and register nobody. */
  ghost predicate ListsUntouched(s: State, s': State) {
    && s'.nodeIndex == s.nodeIndex
    && s'.slots == s.slots
    && s'.totalNodes == s.totalNodes
    && s'.nodes.Keys == s.nodes.Keys
    && forall a :: a in s.nodes ==> s'.nodes[a].active == s.nodes[a].active
  }

  lemma DistributionLeavesLists(s: State, env: Env, b: nat, op: Op)
    requires op.DistributeRewards? && Step(s, env, b, op).Done?
    ensures ListsUntouched(s, Step(s, env, b, op).next)
  {
    PayFrame(s.nodes, s.config.rewardPerGbPerPeriod, op.period, op.addresses, |op.addresses|);
  }

  lemma OthersLeaveLists(s: State, env: Env, b: nat, op: Op)
    requires !op.RegisterStorageNode? && !op.UnregisterStorageNode?
    requires Step(s, env, b, op).Done?
    ensures ListsUntouched(s, Step(s, env, b, op).next)
  {
    hide Wrap;
    if op.DistributeRewards? {
      DistributionLeavesLists(s, env, b, op);
      hide Step;
    }
  }

  lemma UntouchedKeepsLists(s: State, s': State)
    requires ListsInv(s) && ListsUntouched(s, s')
    ensures ListsInv(s')
  {
    assert Active(s') == Active(s);
    assert |s'.nodes.Keys| == |s.nodes.Keys|;
    assert Listed(s') == Listed(s);
  }

  lemma ListsStep(s: State, env: Env, b: nat, op: Op)
    requires ListsInv(s) && Step(s, env, b, op).Done?
    ensures ListsInv(Step(s, env, b, op).next)
  {
    var s' := Step(s, env, b, op).next;
    match op
    case RegisterStorageNode(gb, endpoint, p2pAddrs) =>
      RegisterIndex(s, env, gb, endpoint, p2pAddrs);
      assert s.nodes.Keys <= s'.nodes.Keys;
      SizeMonotone(s.nodes.Keys, s'.nodes.Keys);
      if |s'.nodes| < TWO64 {
        RegisterKeepsSlots(s, env, gb, endpoint, p2pAddrs);
      }
    case UnregisterStorageNode =>
      assert s'.nodes.Keys == s.nodes.Keys;
      assert |s'.nodes.Keys| == |s.nodes.Keys|;
      if |s.nodes| < TWO64 {
        UnregisterKeepsSlots(s, env);
      }
    case _ =>
      OthersLeaveLists(s, env, b, op);
      UntouchedKeepsLists(s, s');
  }

  lemma RegisterIndex(s: State, env: Env, gb: u64, endpoint: Text, p2pAddrs: seq<Text>)
    requires IndexAgrees(s) && OnRegisterStorageNode(s, env, gb, endpoint, p2pAddrs).Done?
    ensures IndexAgrees(OnRegisterStorageNode(s, env, gb, endpoint, p2pAddrs).next)
  {
    hide Wrap;
    var s' := OnRegisterStorageNode(s, env, gb, endpoint, p2pAddrs).next;
    assert s'.nodeIndex == s.nodeIndex + [env.caller];
  }

  /** In every reachable state the lists agree with the `active` flags and the registrations. */
  lemma {:induction false} ListsHold(admin: Text, config: Option<Config>, evs: seq<Event>)
    ensures ListsInv(Run(Genesis(admin, config), evs).s)
  {
    assert Active(Deploy(admin, config)) == {};
    assert ListsInv(Deploy(admin, config));
    hide ListsInv;
    hide Step;
    forall s, env, b, op | ListsInv(s) && Step(s, env, b, op).Done?
      ensures ListsInv(Step(s, env, b, op).next)
    {
      ListsStep(s, env, b, op);
    }
    Invariant(s => ListsInv(s), Genesis(admin, config), evs);
  }

  // ---- Capacity ----

  ghost function AllocationOf(nodes: map<Text, Node>): map<Text, int> {
    map a | a in nodes :: if nodes[a].active then nodes[a].allocatedGb else 0
  }

  /** Capacity of the active nodes, without wrapping. */
  ghost function Allocation(nodes: map<Text, Node>): int {
    Total(AllocationOf(nodes))
  }

  lemma {:induction false} AllocatedIsListTotal(s: State, n: nat)
    requires n <= |s.nodeIndex|
    ensures s.AllocatedUpTo(n) == Wrap(ListTotal(AllocationOf(s.nodes), s.nodeIndex[..n]))
  {
    hide Wrap;
    if n == 0 {
      WrapSmall(0);
    } else {
      AllocatedIsListTotal(s, n - 1);
      var xs := s.nodeIndex[..n];
      assert xs[..n - 1] == s.nodeIndex[..n - 1];
      WrapAdd(ListTotal(AllocationOf(s.nodes), xs[..n - 1]), Get(AllocationOf(s.nodes), xs[n - 1]));
    }
  }

  /** The contract's capacity loop over the node index sums the active allocations. */
  lemma TotalAllocatedIsAllocation(s: State)
    requires IndexAgrees(s)
    ensures s.TotalAllocated() == Wrap(Allocation(s.nodes))
  {
    AllocatedIsListTotal(s, |s.nodeIndex|);
    assert s.nodeIndex[..|s.nodeIndex|] == s.nodeIndex;
    ListTotalIsTotal(AllocationOf(s.nodes), s.nodeIndex);
  }

  /** Both lists sum to the same capacity. */
  lemma BothListsSumAlike(s: State)
    requires ListsInv(s) && |s.nodes| < TWO64
    ensures ListTotal(AllocationOf(s.nodes), Listed(s)) == ListTotal(AllocationOf(s.nodes), s.nodeIndex)
    ensures s.TotalAllocated() == Wrap(ListTotal(AllocationOf(s.nodes), Listed(s)))
  {
    var m := AllocationOf(s.nodes);
    var live := map a | a in Active(s) :: m[a];
    TotalExtend(live, m);
    ListTotalIsTotal(live, Listed(s));
    ListTotalAgree(live, m, Listed(s));
    ListTotalIsTotal(m, s.nodeIndex);
    TotalAllocatedIsAllocation(s);
  }
}
