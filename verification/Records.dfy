/** The values that the contract stores: nodes, challenges, period statistics, configuration. */
module Records {
  import opened Words

  datatype Option<+T> = None | Some(value: T)

  datatype Node = Node(
    address: Text,
    allocatedGb: u64,
    registeredPeriod: u64,
    totalChallenges: u64,
    passedChallenges: u64,
    pendingRewards: u64,
    lastChallengedPeriod: u64,
    lastRewardedPeriod: u64,
    active: bool)
  {
    predicate HasPassedCurrentChallenge(currentPeriod: u64) {
      && lastChallengedPeriod == currentPeriod
      && passedChallenges > 0
      && passedChallenges == totalChallenges
    }
  }

  /** A node as its constructor leaves it; `MAX64` stands for "never challenged". */
  function NewNode(address: Text, allocatedGb: u64, period: u64): Node {
    Node(address, allocatedGb, period, 0, 0, 0, MAX64, period, true)
  }

  datatype Challenge = Challenge(
    id: Text,
    nodeAddress: Text,
    chunkId: Text,
    nonce: u64,
    issuedPeriod: u64,
    deadline: u64,
    resolved: bool,
    passed: bool)

  datatype PeriodStats = PeriodStats(
    period: u64,
    totalGbStored: u64,
    totalRewardsDistributed: u64,
    activeNodes: u64,
    challengesIssued: u64,
    challengesPassed: u64,
    rewardsDistributed: bool)

  function NewStats(period: u64): PeriodStats {
    PeriodStats(period, 0, 0, 0, 0, 0, false)
  }

  datatype Config = Config(
    rewardPerGbPerPeriod: u64,
    minAllocatedGb: u64,
    maxAllocatedGb: u64,
    challengeResponseTimeout: u64,
    rewardDistributionPeriod: u64)

  const DEFAULT_CONFIG := Config(1_000_000, 1, 1000, 60_000, 100)

  datatype Metadata = Metadata(endpoint: Text, p2pAddrs: seq<Text>)
}
