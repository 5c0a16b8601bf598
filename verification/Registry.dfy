/** The storage registry contract over typed state: one function per entry point.

    A failed `assert` or `expect` reverts the call, so an entry point yields either `Done` with the
    next state and the coins paid out, or `Reverted` with the first check that failed. */
module Registry {
  import opened Words
  import opened Records

  const DEFAULT_UPLOADER_PRICE_PER_GB: u64 := 1_000_000

  datatype State = State(
    admin: Text,
    config: Config,
    challengers: set<Text>,
    storageAdmins: set<Text>,
    pauseFlag: Option<bool>,
    uploaderPricePerGb: u64,
    nodes: map<Text, Node>,
    nodeIndex: seq<Text>,
    slots: map<u64, Text>,
    totalNodes: u64,
    challenges: map<Text, Challenge>,
    periods: map<u64, PeriodStats>,
    metadata: map<Text, Metadata>,
    uploaderIndex: seq<Text>,
    bookings: map<Text, u64>,
    usage: map<Text, u64>)
  {
    predicate Paused() {
      pauseFlag == Some(true)
    }

    predicate MayChallenge(caller: Text) {
      caller in challengers || caller == admin
    }

    function Stats(period: u64): PeriodStats {
      if period in periods then periods[period] else NewStats(period)
    }

    function Booked(a: Text): u64 {
      if a in bookings then bookings[a] else 0
    }

    function Usage(a: Text): u64 {
      if a in usage then usage[a] else 0
    }

    /** Address in slot `i` of the enumeration list; the empty string when out of range or unset. */
    function SlotAt(i: u64): Text {
      if i >= totalNodes || i !in slots then EMPTY else slots[i]
    }

    function AllocatedIf(a: Text): u64 {
      if a in nodes && nodes[a].active then nodes[a].allocatedGb else 0
    }

    /** Capacity of the active providers among the first `n` of the node index. */
    function AllocatedUpTo(n: nat): u64
      requires n <= |nodeIndex|
    {
      if n == 0 then 0 else Wrap(AllocatedUpTo(n - 1) + AllocatedIf(nodeIndex[n - 1]))
    }

    function TotalAllocated(): u64 {
      AllocatedUpTo(|nodeIndex|)
    }

    /** Capacity booked by the first `n` of the uploader index, counting first occurrences only. */
    function BookedUpTo(n: nat): u64
      requires n <= |uploaderIndex|
    {
      if n == 0 then 0
      else if uploaderIndex[n - 1] in uploaderIndex[..n - 1] then BookedUpTo(n - 1)
      else Wrap(BookedUpTo(n - 1) + Booked(uploaderIndex[n - 1]))
    }

    function TotalBooked(): u64 {
      BookedUpTo(|uploaderIndex|)
    }
  }

  datatype Env = Env(caller: Text, period: u64, now: u64, coins: u64)

  datatype Op =
    | RegisterStorageNode(gb: u64, endpoint: Text, p2pAddrs: seq<Text>)
    | UpdateStorageAllocation(newGb: u64)
    | UnregisterStorageNode
    | IssueChallenge(id: Text, nodeAddress: Text, chunkId: Text, nonce: u64)
    | SubmitProof(id: Text, proof: Bytes)
    | ResolveExpiredChallenges(ids: seq<Text>)
    | DistributeRewards(period: u64, addresses: seq<Text>)
    | ClaimRewards
    | UpdateProviderMetadata(endpoint: Text, p2pAddrs: seq<Text>)
    | RegisterAsUploader(amountGb: u64)
    | RecordFileUpload(uploader: Text, size: u64)
    | RemoveFileUpload(uploader: Text, size: u64)
    | UpdateConfig(config: Config)
    | AddChallenger(address: Text)
    | RemoveChallenger(address: Text)
    | AddStorageAdmin(address: Text)
    | RemoveStorageAdmin(address: Text)
    | SetUploaderPricePerGb(price: u64)
    | SetPaused(paused: bool)
    | TransferAdmin(address: Text)
    | FundContract

  predicate IsNodeCall(op: Op) {
    op.RegisterStorageNode? || op.UpdateStorageAllocation? || op.UnregisterStorageNode?
  }

  predicate IsChallengeCall(op: Op) {
    op.IssueChallenge? || op.SubmitProof?
  }

  predicate IsAdminCall(op: Op) {
    || op.UpdateConfig? || op.AddChallenger? || op.RemoveChallenger? || op.AddStorageAdmin?
    || op.RemoveStorageAdmin? || op.SetUploaderPricePerGb? || op.SetPaused? || op.TransferAdmin?
  }

  datatype Error =
    | ContractPaused | NotAdmin | NotChallenger | NotStorageAdmin
    | AllocationBelowMinimum | AllocationAboveMaximum
    | NodeAlreadyRegistered | NodeNotRegistered | NodeInactive
    | ChallengeExists | ChallengeNotFound | ChallengeResolved | NotChallengedNode | DeadlinePassed
    | AlreadyDistributed | ProviderNotChallenged
    | NothingToClaim | InsufficientBalance
    | ZeroAmount | InsufficientPayment | InsufficientCapacity | UploaderNotAllowed

  datatype Outcome = Done(next: State, paid: u64) | Reverted(why: Error)

  /** State after deployment. */
  function Deploy(admin: Text, config: Option<Config>): State {
    State(admin, if config.Some? then config.value else DEFAULT_CONFIG, {}, {}, None, DEFAULT_UPLOADER_PRICE_PER_GB,
          map[], [], map[], 0, map[], map[], map[], [], map[], map[])
  }

  function OnRegisterStorageNode(s: State, env: Env, gb: u64, endpoint: Text, p2pAddrs: seq<Text>): Outcome {
    if s.Paused() then Reverted(ContractPaused)
    else if gb < s.config.minAllocatedGb then Reverted(AllocationBelowMinimum)
    else if gb > s.config.maxAllocatedGb then Reverted(AllocationAboveMaximum)
    else if env.caller in s.nodes then Reverted(NodeAlreadyRegistered)
    else
      var stats := s.Stats(env.period);
      Done(s.(nodes := s.nodes[env.caller := NewNode(env.caller, gb, env.period)],
              nodeIndex := if env.caller in s.nodeIndex then s.nodeIndex else s.nodeIndex + [env.caller],
              slots := s.slots[s.totalNodes := env.caller],
              totalNodes := Wrap(s.totalNodes + 1),
              periods := s.periods[env.period := stats.(totalGbStored := Wrap(stats.totalGbStored + gb),
                                                        activeNodes := Wrap(stats.activeNodes + 1))],
              metadata := if endpoint != EMPTY || |p2pAddrs| > 0
                          then s.metadata[env.caller := Metadata(endpoint, p2pAddrs)] else s.metadata), 0)
  }

  function OnUpdateStorageAllocation(s: State, env: Env, newGb: u64): Outcome {
    if s.Paused() then Reverted(ContractPaused)
    else if newGb < s.config.minAllocatedGb then Reverted(AllocationBelowMinimum)
    else if newGb > s.config.maxAllocatedGb then Reverted(AllocationAboveMaximum)
    else if env.caller !in s.nodes then Reverted(NodeNotRegistered)
    else
      var node, stats := s.nodes[env.caller], s.Stats(env.period);
      Done(s.(nodes := s.nodes[env.caller := node.(allocatedGb := newGb)],
              periods := s.periods[env.period :=
                stats.(totalGbStored := Wrap(stats.totalGbStored - node.allocatedGb + newGb))]), 0)
  }

  /** First slot from `i` on that holds `a`, or `totalNodes` when there is none. */
  function FindSlot(s: State, a: Text, i: nat): (k: nat)
    requires i <= s.totalNodes
    ensures i <= k <= s.totalNodes
    decreases s.totalNodes - i
  {
    if i == s.totalNodes || s.SlotAt(i) == a then i else FindSlot(s, a, i + 1)
  }

  function OnUnregisterStorageNode(s: State, env: Env): Outcome {
    if env.caller !in s.nodes then Reverted(NodeNotRegistered)
    else if !s.nodes[env.caller].active then Reverted(NodeInactive)
    else
      var node, stats, k := s.nodes[env.caller], s.Stats(env.period), FindSlot(s, env.caller, 0);
      Done(s.(nodes := s.nodes[env.caller := node.(active := false)],
              slots := if k < s.totalNodes then s.slots[k := s.SlotAt(s.totalNodes - 1)] else s.slots,
              totalNodes := Wrap(s.totalNodes - 1),
              periods := s.periods[env.period := stats.(totalGbStored := Wrap(stats.totalGbStored - node.allocatedGb),
                                                        activeNodes := Wrap(stats.activeNodes - 1))]), 0)
  }

  function OnIssueChallenge(s: State, env: Env, id: Text, nodeAddress: Text, chunkId: Text, nonce: u64): Outcome {
    if s.Paused() then Reverted(ContractPaused)
    else if !s.MayChallenge(env.caller) then Reverted(NotChallenger)
    else if id in s.challenges then Reverted(ChallengeExists)
    else if nodeAddress !in s.nodes then Reverted(NodeNotRegistered)
    else if !s.nodes[nodeAddress].active then Reverted(NodeInactive)
    else
      var node, stats := s.nodes[nodeAddress], s.Stats(env.period);
      var deadline := Wrap(env.now + s.config.challengeResponseTimeout);
      Done(s.(challenges := s.challenges[id :=
                Challenge(id, nodeAddress, chunkId, nonce, env.period, deadline, false, false)],
              nodes := s.nodes[nodeAddress := node.(totalChallenges := Wrap(node.totalChallenges + 1),
                                                    lastChallengedPeriod := env.period)],
              periods := s.periods[env.period := stats.(challengesIssued := Wrap(stats.challengesIssued + 1))]), 0)
  }

  /** Any non-empty proof is accepted. */
  function OnSubmitProof(s: State, env: Env, id: Text, proof: Bytes): Outcome {
    if s.Paused() then Reverted(ContractPaused)
    else if id !in s.challenges then Reverted(ChallengeNotFound)
    else if s.challenges[id].resolved then Reverted(ChallengeResolved)
    else if env.caller != s.challenges[id].nodeAddress then Reverted(NotChallengedNode)
    else if env.now > s.challenges[id].deadline then Reverted(DeadlinePassed)
    else
      var c, valid := s.challenges[id], |proof| > 0;
      var gained := if valid then 1 else 0;
      var stats := s.Stats(c.issuedPeriod);
      Done(s.(challenges := s.challenges[id := c.(resolved := true, passed := valid)],
              nodes := if c.nodeAddress in s.nodes then
                         var node := s.nodes[c.nodeAddress];
                         s.nodes[c.nodeAddress := node.(passedChallenges := Wrap(node.passedChallenges + gained))]
                       else s.nodes,
              periods := s.periods[c.issuedPeriod :=
                stats.(challengesPassed := Wrap(stats.challengesPassed + gained))]), 0)
  }

  function Expire(cs: map<Text, Challenge>, now: u64, id: Text): map<Text, Challenge> {
    if id in cs && !cs[id].resolved && now > cs[id].deadline
    then cs[id := cs[id].(resolved := true, passed := false)]
    else cs
  }

  /** The expiry loop over the first `n` ids. */
  function ExpireUpTo(cs: map<Text, Challenge>, now: u64, ids: seq<Text>, n: nat): map<Text, Challenge>
    requires n <= |ids|
  {
    if n == 0 then cs else Expire(ExpireUpTo(cs, now, ids, n - 1), now, ids[n - 1])
  }

  /** No pause check: expiry keeps working while the contract is paused. */
  function OnResolveExpiredChallenges(s: State, env: Env, ids: seq<Text>): Outcome {
    Done(s.(challenges := ExpireUpTo(s.challenges, env.now, ids, |ids|)), 0)
  }

  predicate AllChallenged(nodes: map<Text, Node>, period: u64, addresses: seq<Text>) {
    forall i :: 0 <= i < |addresses| && addresses[i] in nodes && nodes[addresses[i]].active
      ==> nodes[addresses[i]].lastChallengedPeriod == period
  }

  function Reward(node: Node, rate: u64): u64 {
    Wrap(node.allocatedGb * rate)
  }

  /** Rewarded by one visit of the payout loop; the counters compared are lifetime counters. */
  predicate Eligible(nodes: map<Text, Node>, rate: u64, a: Text) {
    && a in nodes
    && nodes[a].active
    && nodes[a].passedChallenges == nodes[a].totalChallenges
    && Reward(nodes[a], rate) > 0
  }

  datatype Payout = Payout(nodes: map<Text, Node>, total: u64)

  function PayOne(p: Payout, rate: u64, period: u64, a: Text): Payout {
    if Eligible(p.nodes, rate, a) then
      var node := p.nodes[a];
      Payout(p.nodes[a := node.(pendingRewards := Wrap(node.pendingRewards + Reward(node, rate)),
                                lastRewardedPeriod := period)],
             Wrap(p.total + Reward(node, rate)))
    else p
  }

  /** The payout loop over the first `n` addresses. */
  function PayUpTo(nodes: map<Text, Node>, rate: u64, period: u64, addresses: seq<Text>, n: nat): Payout
    requires n <= |addresses|
  {
    if n == 0 then Payout(nodes, 0)
    else PayOne(PayUpTo(nodes, rate, period, addresses, n - 1), rate, period, addresses[n - 1])
  }

  function OnDistributeRewards(s: State, env: Env, period: u64, addresses: seq<Text>): Outcome {
    if s.Paused() then Reverted(ContractPaused)
    else if !s.MayChallenge(env.caller) then Reverted(NotChallenger)
    else if s.Stats(period).rewardsDistributed then Reverted(AlreadyDistributed)
    else if !AllChallenged(s.nodes, period, addresses) then Reverted(ProviderNotChallenged)
    else
      var p := PayUpTo(s.nodes, s.config.rewardPerGbPerPeriod, period, addresses, |addresses|);
      Done(s.(nodes := p.nodes,
              periods := s.periods[period := s.Stats(period).(totalRewardsDistributed := p.total,
                                                              rewardsDistributed := true)]), 0)
  }

  function OnClaimRewards(s: State, env: Env, balance: nat): Outcome {
    if s.Paused() then Reverted(ContractPaused)
    else if env.caller !in s.nodes then Reverted(NodeNotRegistered)
    else if s.nodes[env.caller].pendingRewards == 0 then Reverted(NothingToClaim)
    else if balance < s.nodes[env.caller].pendingRewards then Reverted(InsufficientBalance)
    else
      var node := s.nodes[env.caller];
      Done(s.(nodes := s.nodes[env.caller := node.(pendingRewards := 0)]), node.pendingRewards)
  }

  function OnUpdateProviderMetadata(s: State, env: Env, endpoint: Text, p2pAddrs: seq<Text>): Outcome {
    if s.Paused() then Reverted(ContractPaused)
    else if env.caller !in s.nodes then Reverted(NodeNotRegistered)
    else Done(s.(metadata := s.metadata[env.caller := Metadata(endpoint, p2pAddrs)]), 0)
  }

  function NewTotalBooked(s: State, caller: Text, amountGb: u64): u64 {
    if caller in s.uploaderIndex
    then Wrap(s.TotalBooked() - s.Booked(caller) + amountGb)
    else Wrap(s.TotalBooked() + amountGb)
  }

  function OnRegisterAsUploader(s: State, env: Env, amountGb: u64): Outcome {
    if s.Paused() then Reverted(ContractPaused)
    else if amountGb == 0 then Reverted(ZeroAmount)
    else if env.coins < Wrap(amountGb * s.uploaderPricePerGb) then Reverted(InsufficientPayment)
    else if s.TotalAllocated() < NewTotalBooked(s, env.caller, amountGb) then Reverted(InsufficientCapacity)
    else Done(s.(bookings := s.bookings[env.caller := amountGb],
                 uploaderIndex := if env.caller in s.uploaderIndex then s.uploaderIndex
                                  else s.uploaderIndex + [env.caller]), 0)
  }

  /** A zero value is stored by deleting the key. */
  function SetSparse(m: map<Text, u64>, a: Text, v: u64): map<Text, u64> {
    if v == 0 then m - {a} else m[a := v]
  }

  function OnRecordFileUpload(s: State, env: Env, uploader: Text, size: u64): Outcome {
    if s.Paused() then Reverted(ContractPaused)
    else if env.caller !in s.storageAdmins then Reverted(NotStorageAdmin)
    else if size == 0 then Reverted(ZeroAmount)
    else if uploader !in s.storageAdmins && s.Booked(uploader) == 0 then Reverted(UploaderNotAllowed)
    else Done(s.(usage := SetSparse(s.usage, uploader, Wrap(s.Usage(uploader) + size))), 0)
  }

  function OnRemoveFileUpload(s: State, env: Env, uploader: Text, size: u64): Outcome {
    if s.Paused() then Reverted(ContractPaused)
    else if env.caller !in s.storageAdmins then Reverted(NotStorageAdmin)
    else if size == 0 then Reverted(ZeroAmount)
    else
      var left := if s.Usage(uploader) > size then s.Usage(uploader) - size else 0;
      Done(s.(usage := SetSparse(s.usage, uploader, left)), 0)
  }

  /** The entry points reserved to the admin. */
  function OnAdmin(s: State, env: Env, op: Op): Outcome
    requires IsAdminCall(op)
  {
    if env.caller != s.admin then Reverted(NotAdmin)
    else match op
      case UpdateConfig(config) => Done(s.(config := config), 0)
      case AddChallenger(a) => Done(s.(challengers := s.challengers + {a}), 0)
      case RemoveChallenger(a) => Done(s.(challengers := s.challengers - {a}), 0)
      case AddStorageAdmin(a) => Done(s.(storageAdmins := s.storageAdmins + {a}), 0)
      case RemoveStorageAdmin(a) => Done(s.(storageAdmins := s.storageAdmins - {a}), 0)
      case SetUploaderPricePerGb(price) =>
        if price == 0 then Reverted(ZeroAmount) else Done(s.(uploaderPricePerGb := price), 0)
      case SetPaused(paused) => Done(s.(pauseFlag := Some(paused)), 0)
      case TransferAdmin(a) => Done(s.(admin := a), 0)
  }

  function OnFundContract(s: State, env: Env): Outcome {
    if env.coins == 0 then Reverted(ZeroAmount) else Done(s, 0)
  }

  /** One call of the contract; `balance` is what the chain reports, the attached coins included. */
  function Step(s: State, env: Env, balance: nat, op: Op): Outcome {
    match op
    case RegisterStorageNode(gb, endpoint, p2pAddrs) => OnRegisterStorageNode(s, env, gb, endpoint, p2pAddrs)
    case UpdateStorageAllocation(newGb) => OnUpdateStorageAllocation(s, env, newGb)
    case UnregisterStorageNode => OnUnregisterStorageNode(s, env)
    case IssueChallenge(id, a, chunkId, nonce) => OnIssueChallenge(s, env, id, a, chunkId, nonce)
    case SubmitProof(id, proof) => OnSubmitProof(s, env, id, proof)
    case ResolveExpiredChallenges(ids) => OnResolveExpiredChallenges(s, env, ids)
    case DistributeRewards(period, addresses) => OnDistributeRewards(s, env, period, addresses)
    case ClaimRewards => OnClaimRewards(s, env, balance)
    case UpdateProviderMetadata(endpoint, p2pAddrs) => OnUpdateProviderMetadata(s, env, endpoint, p2pAddrs)
    case RegisterAsUploader(amountGb) => OnRegisterAsUploader(s, env, amountGb)
    case RecordFileUpload(uploader, size) => OnRecordFileUpload(s, env, uploader, size)
    case RemoveFileUpload(uploader, size) => OnRemoveFileUpload(s, env, uploader, size)
    case FundContract => OnFundContract(s, env)
    case _ => OnAdmin(s, env, op)
  }
}
