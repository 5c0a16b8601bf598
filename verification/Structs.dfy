/** The serializable structs as the contract holds them: objects that a cursor fills field by field. */
module Structs {
  import opened Words
  import opened Records
  import opened Wire
  import opened Cursor
  import opened Layouts

  lemma ReadNothing(layout: Layout, data: Bytes, offset: nat)
    ensures ReadUpTo(layout, data, offset, 0) == Progress([], Restored(offset))
  {
  }

  /** One more field: either it is there, or the reading as a whole fails at it. */
  lemma ReadNext(layout: Layout, data: Bytes, offset: nat, n: nat)
    requires n < |layout| && ReadUpTo(layout, data, offset, n).status.Restored?
    ensures var p := ReadUpTo(layout, data, offset, n);
      var r := NextField(layout[n], data, p.status.offset);
      if r.result.Ok?
      then ReadUpTo(layout, data, offset, n + 1) == Progress(p.got + [r.result.value], Restored(r.offset))
      else ReadAll(layout, data, offset) == Progress(p.got, Failed(n))
  {
    var r := NextField(layout[n], data, ReadUpTo(layout, data, offset, n).status.offset);
    if r.result.Err? {
      FailureIsFinal(layout, data, offset, n + 1, |layout|);
    }
  }

  /** A cursor at `at` stands behind the first `k` fields of a struct that starts at `offset`. */
  ghost predicate Behind(at: nat, layout: Layout, data: Bytes, offset: nat, k: nat) {
    k <= |layout| && ReadUpTo(layout, data, offset, k).status == Restored(at)
  }

  /** The first fields read. */
  ghost function Got(layout: Layout, data: Bytes, offset: nat, k: nat): seq<Field>
    requires k <= |layout|
  {
    ReadUpTo(layout, data, offset, k).got
  }

  /** What taking field number `k` from the cursor means for the reading as a whole. */
  ghost predicate Took(at: nat, layout: Layout, data: Bytes, offset: nat, k: nat, field: Option<Field>)
    requires k < |layout|
  {
    match field
    case Some(f) =>
      && Behind(at, layout, data, offset, k + 1)
      && Got(layout, data, offset, k + 1) == Got(layout, data, offset, k) + [f]
      && |Got(layout, data, offset, k)| == k
    case None =>
      ReadAll(layout, data, offset) == Progress(Got(layout, data, offset, k), Failed(k))
  }

  method TakeString(args: Args, ghost layout: Layout, ghost data: Bytes, ghost offset: nat, ghost k: nat)
    returns (r: Result<Text>)
    requires args.data == data && Behind(args.offset, layout, data, offset, k)
    requires k < |layout| && layout[k] == TextKind
    modifies args
    ensures args.data == data
    ensures Took(args.offset, layout, data, offset, k, if r.Ok? then Some(TextField(r.value)) else None)
  {
    hide NextText;
    ReadNext(layout, data, offset, k);
    r := args.NextString();
  }

  method TakeU64(args: Args, ghost layout: Layout, ghost data: Bytes, ghost offset: nat, ghost k: nat)
    returns (r: Result<u64>)
    requires args.data == data && Behind(args.offset, layout, data, offset, k)
    requires k < |layout| && layout[k] == NumberKind
    modifies args
    ensures args.data == data
    ensures Took(args.offset, layout, data, offset, k, if r.Ok? then Some(NumberField(r.value)) else None)
  {
    hide NextU64;
    ReadNext(layout, data, offset, k);
    r := args.NextU64();
  }

  method TakeBool(args: Args, ghost layout: Layout, ghost data: Bytes, ghost offset: nat, ghost k: nat)
    returns (r: Result<bool>)
    requires args.data == data && Behind(args.offset, layout, data, offset, k)
    requires k < |layout| && layout[k] == FlagKind
    modifies args
    ensures args.data == data
    ensures Took(args.offset, layout, data, offset, k, if r.Ok? then Some(FlagField(r.value)) else None)
  {
    hide NextBool;
    ReadNext(layout, data, offset, k);
    r := args.NextBool();
  }

  /** The fields follow each other. */
  lemma NodeEncoding(x: Node)
    ensures EncodeNode(x) ==
      [] + EncodeText(x.address) + EncodeU64(x.allocatedGb) + EncodeU64(x.registeredPeriod)
        + EncodeU64(x.totalChallenges) + EncodeU64(x.passedChallenges) + EncodeU64(x.pendingRewards)
        + EncodeU64(x.lastChallengedPeriod) + EncodeU64(x.lastRewardedPeriod) + EncodeBool(x.active)
  {
    hide EncodeText, EncodeU64, EncodeBool, EncodeFields;
    var fs := NodeFields(x);
    EncodeNothing();
    EncodeNext(fs, 0);
    EncodeNext(fs, 1);
    EncodeNext(fs, 2);
    EncodeNext(fs, 3);
    EncodeNext(fs, 4);
    EncodeNext(fs, 5);
    EncodeNext(fs, 6);
    EncodeNext(fs, 7);
    EncodeNext(fs, 8);
    assert fs[..9] == fs;
  }

  /** How the reading of a struct into `before` stands after `k` fields, or where it ended. */
  ghost predicate NodeStage(data: Bytes, offset: nat, k: nat, status: Status, before: Node, now: Node) {
    match status
    case Restored(at) =>
      Behind(at, NODE_LAYOUT, data, offset, k) && now == NodeWith(before, Got(NODE_LAYOUT, data, offset, k))
    case Failed(i) =>
      var p := ReadAll(NODE_LAYOUT, data, offset);
      p.status == Failed(i) && now == NodeWith(before, p.got)
  }

  /** A storage provider. */
  class StorageNode {
    var address: Text
    var allocatedGb: u64
    var registeredPeriod: u64
    var totalChallenges: u64
    var passedChallenges: u64
    var pendingRewards: u64
    var lastChallengedPeriod: u64
    var lastRewardedPeriod: u64
    var active: bool

    constructor (address: Text, allocatedGb: u64, registeredPeriod: u64)
      ensures Value() == NewNode(address, allocatedGb, registeredPeriod)
    {
      this.address, this.allocatedGb, this.registeredPeriod := address, allocatedGb, registeredPeriod;
      totalChallenges, passedChallenges, pendingRewards := 0, 0, 0;
      lastChallengedPeriod := MAX64;
      lastRewardedPeriod := registeredPeriod;
      active := true;
    }

    ghost function Value(): Node
      reads this
    {
      Node(address, allocatedGb, registeredPeriod, totalChallenges, passedChallenges,
           pendingRewards, lastChallengedPeriod, lastRewardedPeriod, active)
    }

    method Serialize() returns (bytes: Bytes)
      ensures bytes == EncodeNode(Value())
    {
      hide EncodeNode;
      var args := new Args();
      args.AddString(address);
      args.AddU64(allocatedGb);
      args.AddU64(registeredPeriod);
      args.AddU64(totalChallenges);
      args.AddU64(passedChallenges);
      args.AddU64(pendingRewards);
      args.AddU64(lastChallengedPeriod);
      args.AddU64(lastRewardedPeriod);
      args.AddBool(active);
      NodeEncoding(Value());
      return args.data;
    }

    /** Fields 0 to 2. */
    method RestoreFirst(args: Args, ghost data: Bytes, ghost offset: nat, ghost before: Node)
      returns (status: Status)
      requires args.data == data && Behind(args.offset, NODE_LAYOUT, data, offset, 0)
      requires Value() == NodeWith(before, Got(NODE_LAYOUT, data, offset, 0))
      modifies this, args
      ensures args.data == data
      ensures NodeStage(data, offset, 3, status, before, Value())
      ensures status.Restored? ==> status.offset == args.offset
    {
      hide ReadUpTo;
      hide NodeWith;
      ghost var now;

      var address := TakeString(args, NODE_LAYOUT, data, offset, 0);
      if address.Err? {
        return Failed(0);
      }
      now := Value();
      this.address := address.value;
      NodeAssign(before, Got(NODE_LAYOUT, data, offset, 0), 0, now, TextField(address.value), Value());

      var allocatedGb := TakeU64(args, NODE_LAYOUT, data, offset, 1);
      if allocatedGb.Err? {
        return Failed(1);
      }
      now := Value();
      this.allocatedGb := allocatedGb.value;
      NodeAssign(before, Got(NODE_LAYOUT, data, offset, 1), 1, now, NumberField(allocatedGb.value), Value());

      var registeredPeriod := TakeU64(args, NODE_LAYOUT, data, offset, 2);
      if registeredPeriod.Err? {
        return Failed(2);
      }
      now := Value();
      this.registeredPeriod := registeredPeriod.value;
      NodeAssign(before, Got(NODE_LAYOUT, data, offset, 2), 2, now, NumberField(registeredPeriod.value), Value());

      return Restored(args.offset);
    }

    /** Fields 3 to 5. */
    method RestoreMiddle(args: Args, ghost data: Bytes, ghost offset: nat, ghost before: Node)
      returns (status: Status)
      requires args.data == data && Behind(args.offset, NODE_LAYOUT, data, offset, 3)
      requires Value() == NodeWith(before, Got(NODE_LAYOUT, data, offset, 3))
      modifies this, args
      ensures args.data == data
      ensures NodeStage(data, offset, 6, status, before, Value())
      ensures status.Restored? ==> status.offset == args.offset
    {
      hide ReadUpTo;
      hide NodeWith;
      ghost var now;

      var totalChallenges := TakeU64(args, NODE_LAYOUT, data, offset, 3);
      if totalChallenges.Err? {
        return Failed(3);
      }
      now := Value();
      this.totalChallenges := totalChallenges.value;
      NodeAssign(before, Got(NODE_LAYOUT, data, offset, 3), 3, now, NumberField(totalChallenges.value), Value());

      var passedChallenges := TakeU64(args, NODE_LAYOUT, data, offset, 4);
      if passedChallenges.Err? {
        return Failed(4);
      }
      now := Value();
      this.passedChallenges := passedChallenges.value;
      NodeAssign(before, Got(NODE_LAYOUT, data, offset, 4), 4, now, NumberField(passedChallenges.value), Value());

      var pendingRewards := TakeU64(args, NODE_LAYOUT, data, offset, 5);
      if pendingRewards.Err? {
        return Failed(5);
      }
      now := Value();
      this.pendingRewards := pendingRewards.value;
      NodeAssign(before, Got(NODE_LAYOUT, data, offset, 5), 5, now, NumberField(pendingRewards.value), Value());

      return Restored(args.offset);
    }

    /** Fields 6 to 8. */
    method RestoreLast(args: Args, ghost data: Bytes, ghost offset: nat, ghost before: Node)
      returns (status: Status)
      requires args.data == data && Behind(args.offset, NODE_LAYOUT, data, offset, 6)
      requires Value() == NodeWith(before, Got(NODE_LAYOUT, data, offset, 6))
      modifies this, args
      ensures args.data == data
      ensures NodeStage(data, offset, 9, status, before, Value())
      ensures status.Restored? ==> status.offset == args.offset
    {
      hide ReadUpTo;
      hide NodeWith;
      ghost var now;

      var lastChallengedPeriod := TakeU64(args, NODE_LAYOUT, data, offset, 6);
      if lastChallengedPeriod.Err? {
        return Failed(6);
      }
      now := Value();
      this.lastChallengedPeriod := lastChallengedPeriod.value;
      NodeAssign(before, Got(NODE_LAYOUT, data, offset, 6), 6, now, NumberField(lastChallengedPeriod.value), Value());

      var lastRewardedPeriod := TakeU64(args, NODE_LAYOUT, data, offset, 7);
      if lastRewardedPeriod.Err? {
        return Failed(7);
      }
      now := Value();
      this.lastRewardedPeriod := lastRewardedPeriod.value;
      NodeAssign(before, Got(NODE_LAYOUT, data, offset, 7), 7, now, NumberField(lastRewardedPeriod.value), Value());

      var active := TakeBool(args, NODE_LAYOUT, data, offset, 8);
      if active.Err? {
        return Failed(8);
      }
      now := Value();
      this.active := active.value;
      NodeAssign(before, Got(NODE_LAYOUT, data, offset, 8), 8, now, FlagField(active.value), Value());

      return Restored(args.offset);
    }

    /** Assigns the fields that can be read, in order, and stops at the first that cannot. */
    method Deserialize(data: Bytes, offset: nat) returns (status: Status)
      modifies this
      ensures var p := ReadAll(NODE_LAYOUT, data, offset);
        Value() == NodeWith(old(Value()), p.got) && status == p.status
    {
      ghost var before := Value();
      var args := new Args.FromBytes(data, offset);
      ReadNothing(NODE_LAYOUT, data, offset);
      NodeWithNothing(before);
      status := RestoreFirst(args, data, offset, before);
      if status.Restored? {
        status := RestoreMiddle(args, data, offset, before);
      }
      if status.Restored? {
        status := RestoreLast(args, data, offset, before);
      }
    }
  }

  /** The fields follow each other. */
  lemma ChallengeEncoding(x: Challenge)
    ensures EncodeChallenge(x) ==
      [] + EncodeText(x.id) + EncodeText(x.nodeAddress) + EncodeText(x.chunkId) + EncodeU64(x.nonce)
        + EncodeU64(x.issuedPeriod) + EncodeU64(x.deadline) + EncodeBool(x.resolved) + EncodeBool(x.passed)
  {
    hide EncodeText, EncodeU64, EncodeBool, EncodeFields;
    var fs := ChallengeFields(x);
    EncodeNothing();
    EncodeNext(fs, 0);
    EncodeNext(fs, 1);
    EncodeNext(fs, 2);
    EncodeNext(fs, 3);
    EncodeNext(fs, 4);
    EncodeNext(fs, 5);
    EncodeNext(fs, 6);
    EncodeNext(fs, 7);
    assert fs[..8] == fs;
  }

  /** How the reading of a struct into `before` stands after `k` fields, or where it ended. */
  ghost predicate ChallengeStage(data: Bytes, offset: nat, k: nat, status: Status, before: Challenge, now: Challenge) {
    match status
    case Restored(at) =>
      && Behind(at, CHALLENGE_LAYOUT, data, offset, k)
      && now == ChallengeWith(before, Got(CHALLENGE_LAYOUT, data, offset, k))
    case Failed(i) =>
      var p := ReadAll(CHALLENGE_LAYOUT, data, offset);
      p.status == Failed(i) && now == ChallengeWith(before, p.got)
  }

  /** A challenge issued to a provider. */
  class StorageChallenge {
    var id: Text
    var nodeAddress: Text
    var chunkId: Text
    var nonce: u64
    var issuedPeriod: u64
    var deadline: u64
    var resolved: bool
    var passed: bool

    constructor (id: Text, nodeAddress: Text, chunkId: Text, nonce: u64, issuedPeriod: u64, deadline: u64)
      ensures Value() == Challenge(id, nodeAddress, chunkId, nonce, issuedPeriod, deadline, false, false)
    {
      this.id, this.nodeAddress, this.chunkId := id, nodeAddress, chunkId;
      this.nonce, this.issuedPeriod, this.deadline := nonce, issuedPeriod, deadline;
      resolved, passed := false, false;
    }

    ghost function Value(): Challenge
      reads this
    {
      Challenge(id, nodeAddress, chunkId, nonce, issuedPeriod, deadline, resolved, passed)
    }

    method Serialize() returns (bytes: Bytes)
      ensures bytes == EncodeChallenge(Value())
    {
      hide EncodeChallenge;
      var args := new Args();
      args.AddString(id);
      args.AddString(nodeAddress);
      args.AddString(chunkId);
      args.AddU64(nonce);
      args.AddU64(issuedPeriod);
      args.AddU64(deadline);
      args.AddBool(resolved);
      args.AddBool(passed);
      ChallengeEncoding(Value());
      return args.data;
    }

    /** Fields 0 to 2. */
    method RestoreFirst(args: Args, ghost data: Bytes, ghost offset: nat, ghost before: Challenge)
      returns (status: Status)
      requires args.data == data && Behind(args.offset, CHALLENGE_LAYOUT, data, offset, 0)
      requires Value() == ChallengeWith(before, Got(CHALLENGE_LAYOUT, data, offset, 0))
      modifies this, args
      ensures args.data == data
      ensures ChallengeStage(data, offset, 3, status, before, Value())
      ensures status.Restored? ==> status.offset == args.offset
    {
      hide ReadUpTo;
      hide ChallengeWith;
      ghost var now;

      var id := TakeString(args, CHALLENGE_LAYOUT, data, offset, 0);
      if id.Err? {
        return Failed(0);
      }
      now := Value();
      this.id := id.value;
      ChallengeAssign(before, Got(CHALLENGE_LAYOUT, data, offset, 0), 0, now, TextField(id.value), Value());

      var nodeAddress := TakeString(args, CHALLENGE_LAYOUT, data, offset, 1);
      if nodeAddress.Err? {
        return Failed(1);
      }
      now := Value();
      this.nodeAddress := nodeAddress.value;
      ChallengeAssign(before, Got(CHALLENGE_LAYOUT, data, offset, 1), 1, now, TextField(nodeAddress.value), Value());

      var chunkId := TakeString(args, CHALLENGE_LAYOUT, data, offset, 2);
      if chunkId.Err? {
        return Failed(2);
      }
      now := Value();
      this.chunkId := chunkId.value;
      ChallengeAssign(before, Got(CHALLENGE_LAYOUT, data, offset, 2), 2, now, TextField(chunkId.value), Value());

      return Restored(args.offset);
    }

    /** Fields 3 to 5. */
    method RestoreMiddle(args: Args, ghost data: Bytes, ghost offset: nat, ghost before: Challenge)
      returns (status: Status)
      requires args.data == data && Behind(args.offset, CHALLENGE_LAYOUT, data, offset, 3)
      requires Value() == ChallengeWith(before, Got(CHALLENGE_LAYOUT, data, offset, 3))
      modifies this, args
      ensures args.data == data
      ensures ChallengeStage(data, offset, 6, status, before, Value())
      ensures status.Restored? ==> status.offset == args.offset
    {
      hide ReadUpTo;
      hide ChallengeWith;
      ghost var now;

      var nonce := TakeU64(args, CHALLENGE_LAYOUT, data, offset, 3);
      if nonce.Err? {
        return Failed(3);
      }
      now := Value();
      this.nonce := nonce.value;
      ChallengeAssign(before, Got(CHALLENGE_LAYOUT, data, offset, 3), 3, now, NumberField(nonce.value), Value());

      var issuedPeriod := TakeU64(args, CHALLENGE_LAYOUT, data, offset, 4);
      if issuedPeriod.Err? {
        return Failed(4);
      }
      now := Value();
      this.issuedPeriod := issuedPeriod.value;
      ChallengeAssign(before, Got(CHALLENGE_LAYOUT, data, offset, 4), 4, now, NumberField(issuedPeriod.value), Value());

      var deadline := TakeU64(args, CHALLENGE_LAYOUT, data, offset, 5);
      if deadline.Err? {
        return Failed(5);
      }
      now := Value();
      this.deadline := deadline.value;
      ChallengeAssign(before, Got(CHALLENGE_LAYOUT, data, offset, 5), 5, now, NumberField(deadline.value), Value());

      return Restored(args.offset);
    }

    /** Fields 6 to 7. */
    method RestoreLast(args: Args, ghost data: Bytes, ghost offset: nat, ghost before: Challenge)
      returns (status: Status)
      requires args.data == data && Behind(args.offset, CHALLENGE_LAYOUT, data, offset, 6)
      requires Value() == ChallengeWith(before, Got(CHALLENGE_LAYOUT, data, offset, 6))
      modifies this, args
      ensures args.data == data
      ensures ChallengeStage(data, offset, 8, status, before, Value())
      ensures status.Restored? ==> status.offset == args.offset
    {
      hide ReadUpTo;
      hide ChallengeWith;
      ghost var now;

      var resolved := TakeBool(args, CHALLENGE_LAYOUT, data, offset, 6);
      if resolved.Err? {
        return Failed(6);
      }
      now := Value();
      this.resolved := resolved.value;
      ChallengeAssign(before, Got(CHALLENGE_LAYOUT, data, offset, 6), 6, now, FlagField(resolved.value), Value());

      var passed := TakeBool(args, CHALLENGE_LAYOUT, data, offset, 7);
      if passed.Err? {
        return Failed(7);
      }
      now := Value();
      this.passed := passed.value;
      ChallengeAssign(before, Got(CHALLENGE_LAYOUT, data, offset, 7), 7, now, FlagField(passed.value), Value());

      return Restored(args.offset);
    }

    /** Assigns the fields that can be read, in order, and stops at the first that cannot. */
    method Deserialize(data: Bytes, offset: nat) returns (status: Status)
      modifies this
      ensures var p := ReadAll(CHALLENGE_LAYOUT, data, offset);
        Value() == ChallengeWith(old(Value()), p.got) && status == p.status
    {
      ghost var before := Value();
      var args := new Args.FromBytes(data, offset);
      ReadNothing(CHALLENGE_LAYOUT, data, offset);
      ChallengeWithNothing(before);
      status := RestoreFirst(args, data, offset, before);
      if status.Restored? {
        status := RestoreMiddle(args, data, offset, before);
      }
      if status.Restored? {
        status := RestoreLast(args, data, offset, before);
      }
    }
  }

  /** The fields follow each other. */
  lemma StatsEncoding(x: PeriodStats)
    ensures EncodeStats(x) ==
      [] + EncodeU64(x.period) + EncodeU64(x.totalGbStored) + EncodeU64(x.totalRewardsDistributed)
        + EncodeU64(x.activeNodes) + EncodeU64(x.challengesIssued) + EncodeU64(x.challengesPassed)
        + EncodeBool(x.rewardsDistributed)
  {
    hide EncodeText, EncodeU64, EncodeBool, EncodeFields;
    var fs := StatsFields(x);
    EncodeNothing();
    EncodeNext(fs, 0);
    EncodeNext(fs, 1);
    EncodeNext(fs, 2);
    EncodeNext(fs, 3);
    EncodeNext(fs, 4);
    EncodeNext(fs, 5);
    EncodeNext(fs, 6);
    assert fs[..7] == fs;
  }

  /** How the reading of a struct into `before` stands after `k` fields, or where it ended. */
  ghost predicate StatsStage(data: Bytes, offset: nat, k: nat, status: Status, before: PeriodStats, now: PeriodStats) {
    match status
    case Restored(at) =>
      Behind(at, STATS_LAYOUT, data, offset, k) && now == StatsWith(before, Got(STATS_LAYOUT, data, offset, k))
    case Failed(i) =>
      var p := ReadAll(STATS_LAYOUT, data, offset);
      p.status == Failed(i) && now == StatsWith(before, p.got)
  }

  /** The statistics of one period. */
  class StoragePeriod {
    var period: u64
    var totalGbStored: u64
    var totalRewardsDistributed: u64
    var activeNodes: u64
    var challengesIssued: u64
    var challengesPassed: u64
    var rewardsDistributed: bool

    constructor (period: u64)
      ensures Value() == NewStats(period)
    {
      this.period := period;
      totalGbStored, totalRewardsDistributed, activeNodes := 0, 0, 0;
      challengesIssued, challengesPassed, rewardsDistributed := 0, 0, false;
    }

    ghost function Value(): PeriodStats
      reads this
    {
      PeriodStats(period, totalGbStored, totalRewardsDistributed, activeNodes,
                  challengesIssued, challengesPassed, rewardsDistributed)
    }

    method Serialize() returns (bytes: Bytes)
      ensures bytes == EncodeStats(Value())
    {
      hide EncodeStats;
      var args := new Args();
      args.AddU64(period);
      args.AddU64(totalGbStored);
      args.AddU64(totalRewardsDistributed);
      args.AddU64(activeNodes);
      args.AddU64(challengesIssued);
      args.AddU64(challengesPassed);
      args.AddBool(rewardsDistributed);
      StatsEncoding(Value());
      return args.data;
    }

    /** Fields 0 to 3. */
    method RestoreFirst(args: Args, ghost data: Bytes, ghost offset: nat, ghost before: PeriodStats)
      returns (status: Status)
      requires args.data == data && Behind(args.offset, STATS_LAYOUT, data, offset, 0)
      requires Value() == StatsWith(before, Got(STATS_LAYOUT, data, offset, 0))
      modifies this, args
      ensures args.data == data
      ensures StatsStage(data, offset, 4, status, before, Value())
      ensures status.Restored? ==> status.offset == args.offset
    {
      hide ReadUpTo;
      hide StatsWith;
      ghost var now;

      var period := TakeU64(args, STATS_LAYOUT, data, offset, 0);
      if period.Err? {
        return Failed(0);
      }
      now := Value();
      this.period := period.value;
      StatsAssign(before, Got(STATS_LAYOUT, data, offset, 0), 0, now, NumberField(period.value), Value());

      var totalGbStored := TakeU64(args, STATS_LAYOUT, data, offset, 1);
      if totalGbStored.Err? {
        return Failed(1);
      }
      now := Value();
      this.totalGbStored := totalGbStored.value;
      StatsAssign(before, Got(STATS_LAYOUT, data, offset, 1), 1, now, NumberField(totalGbStored.value), Value());

      var totalRewardsDistributed := TakeU64(args, STATS_LAYOUT, data, offset, 2);
      if totalRewardsDistributed.Err? {
        return Failed(2);
      }
      now := Value();
      this.totalRewardsDistributed := totalRewardsDistributed.value;
      StatsAssign(before, Got(STATS_LAYOUT, data, offset, 2), 2, now,
                  NumberField(totalRewardsDistributed.value), Value());

      var activeNodes := TakeU64(args, STATS_LAYOUT, data, offset, 3);
      if activeNodes.Err? {
        return Failed(3);
      }
      now := Value();
      this.activeNodes := activeNodes.value;
      StatsAssign(before, Got(STATS_LAYOUT, data, offset, 3), 3, now, NumberField(activeNodes.value), Value());

      return Restored(args.offset);
    }

    /** Fields 4 to 6. */
    method RestoreRest(args: Args, ghost data: Bytes, ghost offset: nat, ghost before: PeriodStats)
      returns (status: Status)
      requires args.data == data && Behind(args.offset, STATS_LAYOUT, data, offset, 4)
      requires Value() == StatsWith(before, Got(STATS_LAYOUT, data, offset, 4))
      modifies this, args
      ensures args.data == data
      ensures StatsStage(data, offset, 7, status, before, Value())
      ensures status.Restored? ==> status.offset == args.offset
    {
      hide ReadUpTo;
      hide StatsWith;
      ghost var now;

      var challengesIssued := TakeU64(args, STATS_LAYOUT, data, offset, 4);
      if challengesIssued.Err? {
        return Failed(4);
      }
      now := Value();
      this.challengesIssued := challengesIssued.value;
      StatsAssign(before, Got(STATS_LAYOUT, data, offset, 4), 4, now, NumberField(challengesIssued.value), Value());

      var challengesPassed := TakeU64(args, STATS_LAYOUT, data, offset, 5);
      if challengesPassed.Err? {
        return Failed(5);
      }
      now := Value();
      this.challengesPassed := challengesPassed.value;
      StatsAssign(before, Got(STATS_LAYOUT, data, offset, 5), 5, now, NumberField(challengesPassed.value), Value());

      var rewardsDistributed := TakeBool(args, STATS_LAYOUT, data, offset, 6);
      if rewardsDistributed.Err? {
        return Failed(6);
      }
      now := Value();
      this.rewardsDistributed := rewardsDistributed.value;
      StatsAssign(before, Got(STATS_LAYOUT, data, offset, 6), 6, now, FlagField(rewardsDistributed.value), Value());

      return Restored(args.offset);
    }

    /** Assigns the fields that can be read, in order, and stops at the first that cannot. */
    method Deserialize(data: Bytes, offset: nat) returns (status: Status)
      modifies this
      ensures var p := ReadAll(STATS_LAYOUT, data, offset);
        Value() == StatsWith(old(Value()), p.got) && status == p.status
    {
      ghost var before := Value();
      var args := new Args.FromBytes(data, offset);
      ReadNothing(STATS_LAYOUT, data, offset);
      StatsWithNothing(before);
      status := RestoreFirst(args, data, offset, before);
      if status.Restored? {
        status := RestoreRest(args, data, offset, before);
      }
    }
  }

  /** The fields follow each other. */
  lemma ConfigEncoding(x: Config)
    ensures EncodeConfig(x) ==
      [] + EncodeU64(x.rewardPerGbPerPeriod) + EncodeU64(x.minAllocatedGb) + EncodeU64(x.maxAllocatedGb)
        + EncodeU64(x.challengeResponseTimeout) + EncodeU64(x.rewardDistributionPeriod)
  {
    hide EncodeText, EncodeU64, EncodeBool, EncodeFields;
    var fs := ConfigFields(x);
    EncodeNothing();
    EncodeNext(fs, 0);
    EncodeNext(fs, 1);
    EncodeNext(fs, 2);
    EncodeNext(fs, 3);
    EncodeNext(fs, 4);
    assert fs[..5] == fs;
  }

  /** How the reading of a struct into `before` stands after `k` fields, or where it ended. */
  ghost predicate ConfigStage(data: Bytes, offset: nat, k: nat, status: Status, before: Config, now: Config) {
    match status
    case Restored(at) =>
      Behind(at, CONFIG_LAYOUT, data, offset, k) && now == ConfigWith(before, Got(CONFIG_LAYOUT, data, offset, k))
    case Failed(i) =>
      var p := ReadAll(CONFIG_LAYOUT, data, offset);
      p.status == Failed(i) && now == ConfigWith(before, p.got)
  }

  /** The parameters of the contract. */
  class StorageConfig {
    var rewardPerGbPerPeriod: u64
    var minAllocatedGb: u64
    var maxAllocatedGb: u64
    var challengeResponseTimeout: u64
    var rewardDistributionPeriod: u64

    constructor ()
      ensures Value() == DEFAULT_CONFIG
    {
      rewardPerGbPerPeriod, minAllocatedGb, maxAllocatedGb := 1_000_000, 1, 1000;
      challengeResponseTimeout, rewardDistributionPeriod := 60_000, 100;
    }

    ghost function Value(): Config
      reads this
    {
      Config(rewardPerGbPerPeriod, minAllocatedGb, maxAllocatedGb,
             challengeResponseTimeout, rewardDistributionPeriod)
    }

    method Serialize() returns (bytes: Bytes)
      ensures bytes == EncodeConfig(Value())
    {
      hide EncodeConfig;
      var args := new Args();
      args.AddU64(rewardPerGbPerPeriod);
      args.AddU64(minAllocatedGb);
      args.AddU64(maxAllocatedGb);
      args.AddU64(challengeResponseTimeout);
      args.AddU64(rewardDistributionPeriod);
      ConfigEncoding(Value());
      return args.data;
    }

    /** All fields. */
    method Restore(args: Args, ghost data: Bytes, ghost offset: nat, ghost before: Config)
      returns (status: Status)
      requires args.data == data && Behind(args.offset, CONFIG_LAYOUT, data, offset, 0)
      requires Value() == ConfigWith(before, Got(CONFIG_LAYOUT, data, offset, 0))
      modifies this, args
      ensures args.data == data
      ensures ConfigStage(data, offset, 5, status, before, Value())
      ensures status.Restored? ==> status.offset == args.offset
    {
      hide ReadUpTo;
      hide ConfigWith;
      ghost var now;

      var rewardPerGbPerPeriod := TakeU64(args, CONFIG_LAYOUT, data, offset, 0);
      if rewardPerGbPerPeriod.Err? {
        return Failed(0);
      }
      now := Value();
      this.rewardPerGbPerPeriod := rewardPerGbPerPeriod.value;
      ConfigAssign(before, Got(CONFIG_LAYOUT, data, offset, 0), 0, now,
                   NumberField(rewardPerGbPerPeriod.value), Value());

      var minAllocatedGb := TakeU64(args, CONFIG_LAYOUT, data, offset, 1);
      if minAllocatedGb.Err? {
        return Failed(1);
      }
      now := Value();
      this.minAllocatedGb := minAllocatedGb.value;
      ConfigAssign(before, Got(CONFIG_LAYOUT, data, offset, 1), 1, now, NumberField(minAllocatedGb.value), Value());

      var maxAllocatedGb := TakeU64(args, CONFIG_LAYOUT, data, offset, 2);
      if maxAllocatedGb.Err? {
        return Failed(2);
      }
      now := Value();
      this.maxAllocatedGb := maxAllocatedGb.value;
      ConfigAssign(before, Got(CONFIG_LAYOUT, data, offset, 2), 2, now, NumberField(maxAllocatedGb.value), Value());

      var challengeResponseTimeout := TakeU64(args, CONFIG_LAYOUT, data, offset, 3);
      if challengeResponseTimeout.Err? {
        return Failed(3);
      }
      now := Value();
      this.challengeResponseTimeout := challengeResponseTimeout.value;
      ConfigAssign(before, Got(CONFIG_LAYOUT, data, offset, 3), 3, now,
                   NumberField(challengeResponseTimeout.value), Value());

      var rewardDistributionPeriod := TakeU64(args, CONFIG_LAYOUT, data, offset, 4);
      if rewardDistributionPeriod.Err? {
        return Failed(4);
      }
      now := Value();
      this.rewardDistributionPeriod := rewardDistributionPeriod.value;
      ConfigAssign(before, Got(CONFIG_LAYOUT, data, offset, 4), 4, now,
                   NumberField(rewardDistributionPeriod.value), Value());

      return Restored(args.offset);
    }

    /** Assigns the fields that can be read, in order, and stops at the first that cannot. */
    method Deserialize(data: Bytes, offset: nat) returns (status: Status)
      modifies this
      ensures var p := ReadAll(CONFIG_LAYOUT, data, offset);
        Value() == ConfigWith(old(Value()), p.got) && status == p.status
    {
      ghost var before := Value();
      var args := new Args.FromBytes(data, offset);
      ReadNothing(CONFIG_LAYOUT, data, offset);
      ConfigWithNothing(before);
      status := Restore(args, data, offset, before);
    }
  }
}
