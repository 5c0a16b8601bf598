/** The contract on its real store: a flat map from bytes to bytes, read and written through key
    builders and serialized records. Each entry point is proved to do to the represented typed state
    what its function in `Registry` says, and to leave the datastore alone when it reverts. */
module Contract {
  import opened Words
  import opened Records
  import opened Registry
  import opened Wire
  import opened Cursor
  import opened Layouts
  import opened Structs
  import opened Keys
  import opened FlatStore
  import opened Aliases
  import opened Runs

  datatype Receipt = Accepted(paid: u64) | Rejected(why: Error)

  /** The call had outcome `o`: the next state and what is paid out, or the failed check and no change. */
  ghost predicate Follows(s: State, o: Outcome, s': State, r: Receipt) {
    match o
    case Done(next, paid) => s' == next && r == Accepted(paid)
    case Reverted(why) => s' == s && r == Rejected(why)
  }

  class StorageRegistry {
    var entries: Entries
    ghost var typed: State

    ghost predicate Valid()
      reads this
    {
      Good(entries, typed)
    }

    constructor (admin: Text, config: Option<Config>)
      ensures Valid() && typed == Deploy(admin, config)
    {
      hide KeyBytes, Good, Deploy, EncodeU64, EncodeConfig;
      var settings := if config.Some? then config.value else DEFAULT_CONFIG;
      var bytes := SettingsBytes(settings);
      var e: Entries := map[];
      e := e[KeyBytes(AdminKey) := admin.utf8];
      e := e[KeyBytes(ConfigKey) := bytes];
      e := e[KeyBytes(TotalNodesKey) := EncodeU64(0)];
      e := e[KeyBytes(PriceKey) := EncodeU64(DEFAULT_UPLOADER_PRICE_PER_GB)];
      entries := e;
      typed := Deploy(admin, config);
      SameDeployment(admin, config, settings);
      DeployRepresents(admin, settings);
    }

    static lemma SameDeployment(admin: Text, config: Option<Config>, settings: Config)
      requires settings == if config.Some? then config.value else DEFAULT_CONFIG
      ensures Deploy(admin, config) == Deploy(admin, Some(settings))
    {
    }

    static method SettingsBytes(settings: Config) returns (bytes: Bytes)
      ensures bytes == EncodeConfig(settings)
    {
      var stored := new StorageConfig();
      stored.rewardPerGbPerPeriod, stored.minAllocatedGb := settings.rewardPerGbPerPeriod, settings.minAllocatedGb;
      stored.maxAllocatedGb := settings.maxAllocatedGb;
      stored.challengeResponseTimeout := settings.challengeResponseTimeout;
      stored.rewardDistributionPeriod := settings.rewardDistributionPeriod;
      bytes := stored.Serialize();
    }

    static lemma DeployRepresents(admin: Text, c: Config)
      ensures var e := map[][KeyBytes(AdminKey) := admin.utf8][KeyBytes(ConfigKey) := EncodeConfig(c)]
          [KeyBytes(TotalNodesKey) := EncodeU64(0)][KeyBytes(PriceKey) := EncodeU64(DEFAULT_UPLOADER_PRICE_PER_GB)];
        Good(e, Deploy(admin, Some(c)))
    {
      var e0: Entries := map[];
      var e1 := e0[KeyBytes(AdminKey) := admin.utf8];
      var e2 := e1[KeyBytes(ConfigKey) := EncodeConfig(c)];
      var e3 := e2[KeyBytes(TotalNodesKey) := EncodeU64(0)];
      var e4 := e3[KeyBytes(PriceKey) := EncodeU64(DEFAULT_UPLOADER_PRICE_PER_GB)];
      var s := Deploy(admin, Some(c));
      hide KeyBytes, EncodeU64, EncodeConfig, EncodeNode, EncodeChallenge, EncodeStats, EncodeTexts, EncodeText;
      forall k | Clear(k)
        ensures Lookup(e4, KeyBytes(k)) == Stored(s, k)
      {
        LookupPut(e0, AdminKey, admin.utf8, k);
        LookupPut(e1, ConfigKey, EncodeConfig(c), k);
        LookupPut(e2, TotalNodesKey, EncodeU64(0), k);
        LookupPut(e3, PriceKey, EncodeU64(DEFAULT_UPLOADER_PRICE_PER_GB), k);
        hide Lookup;
        FreshStore(admin, c, k);
      }
    }

    /** The datastore of a new contract holds four keys. */
    static lemma FreshStore(admin: Text, c: Config, k: Key)
      ensures Stored(Deploy(admin, Some(c)), k) ==
              if k == PriceKey then Some(EncodeU64(DEFAULT_UPLOADER_PRICE_PER_GB))
              else if k == TotalNodesKey then Some(EncodeU64(0))
              else if k == ConfigKey then Some(EncodeConfig(c))
              else if k == AdminKey then Some(admin.utf8)
              else None
    {
      hide EncodeU64, EncodeConfig;
    }

    // ---- The store ----

    method Put(ghost k: Key, key: Bytes, value: Bytes, ghost next: State)
      requires Valid() && key == KeyBytes(k) && Clear(k)
      requires Stored(next, k) == Some(value) && SameElsewhere(typed, next, k) && Storable(next)
      modifies this
      ensures Valid() && typed == next
    {
      PutRepresents(entries, typed, k, value, next);
      entries := entries[key := value];
      typed := next;
    }

    method Del(ghost k: Key, key: Bytes, ghost next: State)
      requires Valid() && key == KeyBytes(k) && Clear(k)
      requires Stored(next, k) == None && SameElsewhere(typed, next, k) && Storable(next)
      modifies this
      ensures Valid() && typed == next
    {
      DelRepresents(entries, typed, k, next);
      if key in entries {
        entries := entries - {key};
      } else {
        assert entries - {key} == entries;
      }
      typed := next;
    }

    method Read(ghost k: Key, key: Bytes) returns (value: Option<Bytes>)
      requires Valid() && key == KeyBytes(k) && Clear(k)
      ensures value == Stored(typed, k)
    {
      value := if key in entries then Some(entries[key]) else None;
      assert value == Lookup(entries, KeyBytes(k));
    }

    // ---- Helpers of the contract ----

    /** For any address; one that is clear finds its node or nothing. */
    method GetNode(address: Text) returns (node: StorageNode?)
      requires Valid()
      ensures NodeFound(typed, address).None? <==> node == null
      ensures node != null ==> fresh(node) && node.Value() == NodeFound(typed, address).value
                               && NodeStorable(node.address, node.Value())
      ensures address in typed.nodes ==> node != null && node.Value() == typed.nodes[address]
                                         && node.address == address && !Aliased(typed, address)
      ensures ClearName(address) ==> (address !in typed.nodes <==> node == null)
    {
      hide Represents;
      ReadIsFound(entries, typed, address);
      if ClearName(address) {
        ClearIsNotAliased(typed, address);
      }
      hide Aliased, ClearName, KeyBytes;
      var key := KeyBytes(NodeKey(address));
      if key !in entries {
        return null;
      }
      node := new StorageNode(EMPTY, 0, 0);
      var _ := node.Deserialize(entries[key], 0);
    }

    method SetNode(node: StorageNode)
      requires Valid() && NodeStorable(node.address, node.Value())
      modifies this
      ensures Valid() && typed == old(typed).(nodes := old(typed).nodes[node.address := node.Value()])
    {
      hide Represents, KeyBytes, EncodeU64, EncodeText, EncodeTexts;
      hide EncodeNode, EncodeChallenge, EncodeStats, EncodeConfig;
      var bytes := node.Serialize();
      Put(NodeKey(node.address), KeyBytes(NodeKey(node.address)), bytes,
          typed.(nodes := typed.nodes[node.address := node.Value()]));
    }

    method GetChallenge(id: Text) returns (challenge: StorageChallenge?)
      requires Valid()
      ensures id !in typed.challenges <==> challenge == null
      ensures challenge != null ==> fresh(challenge) && challenge.Value() == typed.challenges[id]
                                    && ChallengeStorable(id, challenge.Value())
    {
      var value := Read(ChallengeKey(id), KeyBytes(ChallengeKey(id)));
      if value.None? {
        return null;
      }
      challenge := new StorageChallenge(EMPTY, EMPTY, EMPTY, 0, 0, 0);
      ChallengeReads(typed.challenges[id], challenge.Value());
      var _ := challenge.Deserialize(value.value, 0);
    }

    method SetChallenge(challenge: StorageChallenge)
      requires Valid() && ChallengeStorable(challenge.id, challenge.Value())
      modifies this
      ensures Valid()
      ensures typed == old(typed).(challenges := old(typed).challenges[challenge.id := challenge.Value()])
    {
      hide Represents, KeyBytes, EncodeU64, EncodeText, EncodeTexts;
      hide EncodeNode, EncodeChallenge, EncodeStats, EncodeConfig;
      var bytes := challenge.Serialize();
      Put(ChallengeKey(challenge.id), KeyBytes(ChallengeKey(challenge.id)), bytes,
          typed.(challenges := typed.challenges[challenge.id := challenge.Value()]));
    }

    method GetPeriodStats(period: u64) returns (stats: StoragePeriod)
      requires Valid()
      ensures fresh(stats) && stats.Value() == typed.Stats(period) && stats.period == period
    {
      var value := Read(PeriodKey(period), KeyBytes(PeriodKey(period)));
      stats := new StoragePeriod(period);
      if value.Some? {
        StatsReads(typed.periods[period], stats.Value());
        var _ := stats.Deserialize(value.value, 0);
      }
    }

    method SetPeriodStats(stats: StoragePeriod)
      requires Valid()
      modifies this
      ensures Valid() && typed == old(typed).(periods := old(typed).periods[stats.period := stats.Value()])
    {
      hide Represents, KeyBytes, EncodeU64, EncodeText, EncodeTexts;
      hide EncodeNode, EncodeChallenge, EncodeStats, EncodeConfig;
      var bytes := stats.Serialize();
      Put(PeriodKey(stats.period), KeyBytes(PeriodKey(stats.period)), bytes,
          typed.(periods := typed.periods[stats.period := stats.Value()]));
    }

    method GetConfig() returns (config: StorageConfig)
      requires Valid()
      ensures fresh(config) && config.Value() == typed.config
    {
      hide Represents, Storable, ReadAll, EncodeConfig, ConfigWith, KeyBytes;
      var value := Read(ConfigKey, KeyBytes(ConfigKey));
      config := new StorageConfig();
      if value.Some? {
        ConfigReads(typed.config, config.Value());
        var _ := config.Deserialize(value.value, 0);
      }
    }

    method SetConfig(config: StorageConfig)
      requires Valid()
      modifies this
      ensures Valid() && typed == old(typed).(config := config.Value())
    {
      hide Represents, KeyBytes, EncodeU64, EncodeText, EncodeTexts;
      hide EncodeNode, EncodeChallenge, EncodeStats, EncodeConfig;
      var bytes := config.Serialize();
      Put(ConfigKey, KeyBytes(ConfigKey), bytes, typed.(config := config.Value()));
    }

    /** Reads a string array, or the empty array when the key is absent. */
    method ReadIndex(ghost k: Key, key: Bytes, ghost xs: seq<Text>) returns (index: seq<Text>)
      requires Valid() && key == KeyBytes(k) && Clear(k)
      requires Stored(typed, k) == if xs == [] then None else Some(EncodeTexts(xs))
      requires ListStorable(xs)
      ensures index == xs
    {
      var value := Read(k, key);
      if value.None? {
        return [];
      }
      var args := new Args.FromBytes(value.value, 0);
      TextsRead(xs);
      var r := args.NextStringArray();
      return r.value;
    }

    method GetNodeIndex() returns (index: seq<Text>)
      requires Valid()
      ensures index == typed.nodeIndex && ListStorable(index)
    {
      index := ReadIndex(NodeIndexKey, KeyBytes(NodeIndexKey), typed.nodeIndex);
    }

    method SetNodeIndex(addresses: seq<Text>)
      requires Valid() && ListStorable(addresses) && addresses != []
      modifies this
      ensures Valid() && typed == old(typed).(nodeIndex := addresses)
    {
      hide Represents, KeyBytes, EncodeU64, EncodeText, EncodeTexts;
      hide EncodeNode, EncodeChallenge, EncodeStats, EncodeConfig;
      var args := new Args();
      args.AddStringArray(addresses);
      assert [] + EncodeTexts(addresses) == EncodeTexts(addresses);
      Put(NodeIndexKey, KeyBytes(NodeIndexKey), args.data, typed.(nodeIndex := addresses));
    }

    method GetUploaderIndex() returns (index: seq<Text>)
      requires Valid()
      ensures index == typed.uploaderIndex && ListStorable(index)
    {
      index := ReadIndex(UploaderIndexKey, KeyBytes(UploaderIndexKey), typed.uploaderIndex);
    }

    method SetUploaderIndex(addresses: seq<Text>)
      requires Valid() && ListStorable(addresses) && addresses != []
      modifies this
      ensures Valid() && typed == old(typed).(uploaderIndex := addresses)
    {
      hide Represents, KeyBytes, EncodeU64, EncodeText, EncodeTexts;
      hide EncodeNode, EncodeChallenge, EncodeStats, EncodeConfig;
      var args := new Args();
      args.AddStringArray(addresses);
      assert [] + EncodeTexts(addresses) == EncodeTexts(addresses);
      Put(UploaderIndexKey, KeyBytes(UploaderIndexKey), args.data, typed.(uploaderIndex := addresses));
    }

    /** Reads a number, or `default` when the key is absent. */
    method ReadU64(ghost k: Key, key: Bytes, default: u64, ghost x: u64) returns (n: u64)
      requires Valid() && key == KeyBytes(k) && Clear(k)
      requires Stored(typed, k) == Some(EncodeU64(x)) || (Stored(typed, k) == None && x == default)
      ensures n == x
    {
      var value := Read(k, key);
      if value.None? {
        return default;
      }
      U64Reads(x);
      return FromLittleEndian(value.value);
    }

    method GetTotalNodes() returns (n: u64)
      requires Valid()
      ensures n == typed.totalNodes
    {
      n := ReadU64(TotalNodesKey, KeyBytes(TotalNodesKey), 0, typed.totalNodes);
    }

    method SetTotalNodes(count: u64)
      requires Valid()
      modifies this
      ensures Valid() && typed == old(typed).(totalNodes := count)
    {
      hide Represents, KeyBytes, EncodeU64, EncodeText, EncodeTexts;
      hide EncodeNode, EncodeChallenge, EncodeStats, EncodeConfig;
      Put(TotalNodesKey, KeyBytes(TotalNodesKey), EncodeU64(count), typed.(totalNodes := count));
    }

    method GetUploaderPricePerGb() returns (n: u64)
      requires Valid()
      ensures n == typed.uploaderPricePerGb
    {
      n := ReadU64(PriceKey, KeyBytes(PriceKey), DEFAULT_UPLOADER_PRICE_PER_GB, typed.uploaderPricePerGb);
    }

    method GetBookedUploaderGb(address: Text) returns (n: u64)
      requires Valid()
      ensures n == typed.Booked(address)
    {
      n := ReadU64(BookingKey(address), KeyBytes(BookingKey(address)), 0, typed.Booked(address));
    }

    method SetBookedUploaderGb(address: Text, gb: u64)
      requires Valid()
      modifies this
      ensures Valid() && typed == old(typed).(bookings := SetSparse(old(typed).bookings, address, gb))
    {
      ghost var next := typed.(bookings := SetSparse(typed.bookings, address, gb));
      BookingElsewhere(typed, address, gb);
      hide Stored, KeyBytes, Storable;
      if gb == 0 {
        Del(BookingKey(address), KeyBytes(BookingKey(address)), next);
        return;
      }
      Put(BookingKey(address), KeyBytes(BookingKey(address)), EncodeU64(gb), next);
    }

    method GetUploaderUsage(address: Text) returns (n: u64)
      requires Valid()
      ensures n == typed.Usage(address)
    {
      n := ReadU64(UsageKey(address), KeyBytes(UsageKey(address)), 0, typed.Usage(address));
    }

    method SetUploaderUsage(address: Text, bytes: u64)
      requires Valid()
      modifies this
      ensures Valid() && typed == old(typed).(usage := SetSparse(old(typed).usage, address, bytes))
    {
      ghost var next := typed.(usage := SetSparse(typed.usage, address, bytes));
      UsageElsewhere(typed, address, bytes);
      hide Stored, KeyBytes, Storable;
      if bytes == 0 {
        Del(UsageKey(address), KeyBytes(UsageKey(address)), next);
        return;
      }
      Put(UsageKey(address), KeyBytes(UsageKey(address)), EncodeU64(bytes), next);
    }

    method GetNodeAddressAt(index: u64) returns (a: Text)
      requires Valid()
      ensures a == typed.SlotAt(index) && Unreadable(a)
    {
      var total := GetTotalNodes();
      if index >= total {
        return EMPTY;
      }
      var value := Read(SlotKey(index), KeyBytes(SlotKey(index)));
      if value.None? {
        return EMPTY;
      }
      return Text(value.value);
    }

    method SetSlot(index: u64, a: Text)
      requires Valid() && Unreadable(a)
      modifies this
      ensures Valid() && typed == old(typed).(slots := old(typed).slots[index := a])
    {
      hide Represents, KeyBytes, EncodeU64, EncodeText, EncodeTexts;
      hide EncodeNode, EncodeChallenge, EncodeStats, EncodeConfig;
      Put(SlotKey(index), KeyBytes(SlotKey(index)), a.utf8, typed.(slots := typed.slots[index := a]));
    }

    method SetMetadata(a: Text, endpoint: Text, p2pAddrs: seq<Text>)
      requires Valid()
      modifies this
      ensures Valid()
      ensures typed == old(typed).(metadata := old(typed).metadata[a := Metadata(endpoint, p2pAddrs)])
    {
      hide Represents, KeyBytes, EncodeU64, EncodeText, EncodeTexts;
      hide EncodeNode, EncodeChallenge, EncodeStats, EncodeConfig;
      var stored := new Args();
      stored.AddString(endpoint);
      stored.AddStringArray(p2pAddrs);
      assert stored.data == EncodeText(endpoint) + EncodeTexts(p2pAddrs);
      Put(MetadataKey(a), KeyBytes(MetadataKey(a)), stored.data,
          typed.(metadata := typed.metadata[a := Metadata(endpoint, p2pAddrs)]));
    }

    method IsAdmin(a: Text) returns (b: bool)
      requires Valid()
      ensures b == (a == typed.admin)
    {
      var value := Read(AdminKey, KeyBytes(AdminKey));
      return value.Some? && Text(value.value) == a;
    }

    method IsChallenger(a: Text) returns (b: bool)
      requires Valid()
      ensures b == (a in typed.challengers)
    {
      var value := Read(ChallengerKey(a), KeyBytes(ChallengerKey(a)));
      return value.Some?;
    }

    method IsStorageAdmin(a: Text) returns (b: bool)
      requires Valid()
      ensures b == (a in typed.storageAdmins)
    {
      var value := Read(StorageAdminKey(a), KeyBytes(StorageAdminKey(a)));
      return value.Some?;
    }

    method IsPaused() returns (b: bool)
      requires Valid()
      ensures b == typed.Paused()
    {
      var value := Read(PausedKey, KeyBytes(PausedKey));
      MarkersDiffer();
      return value == Some(Ascii("true"));
    }

    method MayChallenge(a: Text) returns (b: bool)
      requires Valid()
      ensures b == typed.MayChallenge(a)
    {
      b := IsChallenger(a);
      if !b {
        b := IsAdmin(a);
      }
    }

    method GetTotalAllocatedGb() returns (total: u64)
      requires Valid()
      ensures total == typed.TotalAllocated()
    {
      hide Good;
      var addresses := GetNodeIndex();
      total := 0;
      for i := 0 to |addresses|
        invariant total == typed.AllocatedUpTo(i)
      {
        var node := GetNode(addresses[i]);
        if node == null || !node.active {
          WrapSmall(total);
          continue;
        }
        total := Wrap(total + node.allocatedGb);
      }
    }

    method GetTotalBookedGb() returns (total: u64)
      requires Valid()
      ensures total == typed.TotalBooked()
    {
      hide Good;
      var uploaders := GetUploaderIndex();
      total := 0;
      for i := 0 to |uploaders|
        invariant total == typed.BookedUpTo(i)
      {
        var addr := uploaders[i];
        var isFirst := true;
        for j := 0 to i
          invariant isFirst == (addr !in uploaders[..j])
        {
          if uploaders[j] == addr {
            isFirst := false;
            assert uploaders[..i][j] == addr;
            break;
          }
        }
        if isFirst {
          var booked := GetBookedUploaderGb(addr);
          total := Wrap(total + booked);
        }
      }
    }

    // ---- Entry points ----

    /** Enters a provider into the node index, unless it is there, and into the next slot. */
    method AppendToLists(a: Text)
      requires Valid() && ListStorable(typed.nodeIndex + [a]) && Unreadable(a)
      modifies this
      ensures Valid()
      ensures var s := old(typed);
        typed == s.(nodeIndex := if a in s.nodeIndex then s.nodeIndex else s.nodeIndex + [a],
                    slots := s.slots[s.totalNodes := a],
                    totalNodes := Wrap(s.totalNodes + 1))
    {
      hide Good, Wrap, ListStorable;
      var index := GetNodeIndex();
      if a !in index {
        index := index + [a];
        SetNodeIndex(index);
      }
      var idx := GetTotalNodes();
      SetSlot(idx, a);
      SetTotalNodes(Wrap(idx as int + 1));
    }

    /** Moves the capacity and the node count in the statistics of a period. */
    method CountNodes(period: u64, gb: int, nodes: int)
      requires Valid()
      modifies this
      ensures Valid()
      ensures var s, stats := old(typed), old(typed).Stats(period);
        typed == s.(periods := s.periods[period := stats.(totalGbStored := Wrap(stats.totalGbStored + gb),
                                                          activeNodes := Wrap(stats.activeNodes + nodes))])
    {
      hide Good, Wrap;
      var stats := GetPeriodStats(period);
      stats.totalGbStored := Wrap(stats.totalGbStored + gb);
      stats.activeNodes := Wrap(stats.activeNodes + nodes);
      SetPeriodStats(stats);
    }

    /** Stores a new node, lists it and counts it. */
    method EnterNode(env: Env, gb: u64)
      requires Valid() && Admissible(env) && ListStorable(typed.nodeIndex + [env.caller])
      modifies this
      ensures Valid()
      ensures var s, stats := old(typed), old(typed).Stats(env.period);
        typed == s.(nodes := s.nodes[env.caller := NewNode(env.caller, gb, env.period)],
                    nodeIndex := if env.caller in s.nodeIndex then s.nodeIndex else s.nodeIndex + [env.caller],
                    slots := s.slots[s.totalNodes := env.caller],
                    totalNodes := Wrap(s.totalNodes + 1),
                    periods := s.periods[env.period := stats.(totalGbStored := Wrap(stats.totalGbStored + gb),
                                                              activeNodes := Wrap(stats.activeNodes + 1))])
    {
      hide Good, Wrap, ListStorable, Encodable, ClearName;
      var node := new StorageNode(env.caller, gb, env.period);
      SetNode(node);
      AppendToLists(env.caller);
      CountNodes(env.period, gb, 1);
    }

    method RegisterStorageNode(env: Env, gb: u64, endpoint: Text, p2pAddrs: seq<Text>) returns (r: Receipt)
      requires Valid() && Admissible(env) && ListStorable(typed.nodeIndex + [env.caller])
      modifies this
      ensures Valid()
      ensures Follows(old(typed), OnRegisterStorageNode(old(typed), env, gb, endpoint, p2pAddrs), typed, r)
      ensures r.Rejected? ==> entries == old(entries)
    {
      hide Good, Wrap, ListStorable, Encodable, ClearName, NodeFound, Aliased;
      var paused := IsPaused();
      if paused {
        return Rejected(ContractPaused);
      }
      var config := GetConfig();
      if gb < config.minAllocatedGb {
        return Rejected(AllocationBelowMinimum);
      }
      if gb > config.maxAllocatedGb {
        return Rejected(AllocationAboveMaximum);
      }
      var existingNode := GetNode(env.caller);
      if existingNode != null {
        return Rejected(NodeAlreadyRegistered);
      }
      EnterNode(env, gb);
      if endpoint != EMPTY || |p2pAddrs| > 0 {
        SetMetadata(env.caller, endpoint, p2pAddrs);
      }
      return Accepted(0);
    }

    method UpdateStorageAllocation(env: Env, newGb: u64) returns (r: Receipt)
      requires Valid() && Admissible(env)
      modifies this
      ensures Valid() && Follows(old(typed), OnUpdateStorageAllocation(old(typed), env, newGb), typed, r)
      ensures r.Rejected? ==> entries == old(entries)
    {
      hide Good, Wrap, ClearName, Encodable, NodeFound, Aliased;
      var paused := IsPaused();
      if paused {
        return Rejected(ContractPaused);
      }
      var config := GetConfig();
      if newGb < config.minAllocatedGb {
        return Rejected(AllocationBelowMinimum);
      }
      if newGb > config.maxAllocatedGb {
        return Rejected(AllocationAboveMaximum);
      }
      var node := GetNode(env.caller);
      if node == null {
        return Rejected(NodeNotRegistered);
      }
      var oldGb := node.allocatedGb;
      node.allocatedGb := newGb;
      SetNode(node);
      var stats := GetPeriodStats(env.period);
      stats.totalGbStored := Wrap(stats.totalGbStored - oldGb + newGb);
      SetPeriodStats(stats);
      return Accepted(0);
    }

    /** Overwrites the first slot that holds `a` with the last slot. */
    method RemoveFromSlots(a: Text) returns (total: u64)
      requires Valid()
      modifies this
      ensures Valid() && total == old(typed).totalNodes
      ensures var s, k := old(typed), FindSlot(old(typed), a, 0);
        typed == s.(slots := if k < s.totalNodes then s.slots[k := s.SlotAt(s.totalNodes - 1)] else s.slots)
    {
      hide Good;
      total := GetTotalNodes();
      var i := 0;
      while i < total
        invariant i <= total == typed.totalNodes
        invariant Valid() && typed == old(typed)
        invariant FindSlot(typed, a, 0) == FindSlot(typed, a, i)
        decreases total - i
      {
        var at := GetNodeAddressAt(i);
        if at == a {
          var last := GetNodeAddressAt(total - 1);
          SetSlot(i, last);
          return;
        }
        i := i + 1;
      }
    }

    method UnregisterStorageNode(env: Env) returns (r: Receipt)
      requires Valid() && Admissible(env)
      modifies this
      ensures Valid() && Follows(old(typed), OnUnregisterStorageNode(old(typed), env), typed, r)
      ensures r.Rejected? ==> entries == old(entries)
    {
      hide Good, Wrap, ClearName, Encodable, NodeFound, Aliased;
      var node := GetNode(env.caller);
      if node == null {
        return Rejected(NodeNotRegistered);
      }
      if !node.active {
        return Rejected(NodeInactive);
      }
      node.active := false;
      SetNode(node);
      FindSlotIgnoresNodes(old(typed), typed, env.caller, 0);
      var total := RemoveFromSlots(env.caller);
      SetTotalNodes(Wrap(total as int - 1));
      CountNodes(env.period, 0 - node.allocatedGb, -1);
      return Accepted(0);
    }

    static lemma FindSlotIgnoresNodes(s: State, s': State, a: Text, i: nat)
      requires i <= s.totalNodes && s'.totalNodes == s.totalNodes && s'.slots == s.slots
      ensures FindSlot(s', a, i) == FindSlot(s, a, i)
      decreases s.totalNodes - i
    {
      if i < s.totalNodes && s.SlotAt(i) != a {
        FindSlotIgnoresNodes(s, s', a, i + 1);
      }
    }

    /** Counts a challenge in the statistics of a period. */
    method CountIssued(period: u64)
      requires Valid()
      modifies this
      ensures Valid()
      ensures var s, stats := old(typed), old(typed).Stats(period);
        typed == s.(periods := s.periods[period := stats.(challengesIssued := Wrap(stats.challengesIssued + 1))])
    {
      hide Good, Wrap;
      var stats := GetPeriodStats(period);
      stats.challengesIssued := Wrap(stats.challengesIssued + 1);
      SetPeriodStats(stats);
    }

    method IssueChallenge(env: Env, id: Text, nodeAddress: Text, chunkId: Text, nonce: u64) returns (r: Receipt)
      requires Valid() && Encodable(id) && Encodable(nodeAddress) && Encodable(chunkId)
      modifies this
      ensures Valid()
      ensures Follows(old(typed), OnFlatIssue(old(typed), env, id, nodeAddress, chunkId, nonce), typed, r)
      ensures r.Rejected? ==> entries == old(entries)
    {
      hide Good, Wrap, Encodable, ClearName, Aliased, AliasAddress;
      var paused := IsPaused();
      if paused {
        return Rejected(ContractPaused);
      }
      var mayChallenge := MayChallenge(env.caller);
      if !mayChallenge {
        return Rejected(NotChallenger);
      }
      var existing := GetChallenge(id);
      if existing != null {
        return Rejected(ChallengeExists);
      }
      var node := GetNode(nodeAddress);
      if node == null {
        return Rejected(NodeNotRegistered);
      }
      if !node.active {
        return Rejected(NodeInactive);
      }
      var config := GetConfig();
      WrapSmall(1);
      RecordIssue(env, id, nodeAddress, node, chunkId, nonce, config.challengeResponseTimeout);
      return Accepted(0);
    }

    /** Stores a new challenge and counts it for its node and its period. */
    method RecordIssue(env: Env, id: Text, nodeAddress: Text, node: StorageNode, chunkId: Text, nonce: u64,
                       timeout: u64)
      requires Valid() && NodeStorable(node.address, node.Value())
      requires Encodable(id) && Encodable(nodeAddress) && Encodable(chunkId)
      modifies this, node
      ensures Valid()
      ensures var s, was, stats := old(typed), old(node.Value()), old(typed).Stats(env.period);
        typed == s.(challenges := s.challenges[id :=
                      Challenge(id, nodeAddress, chunkId, nonce, env.period, Wrap(env.now + timeout), false, false)],
                    nodes := s.nodes[was.address := was.(totalChallenges := Wrap(was.totalChallenges + 1),
                                                         lastChallengedPeriod := env.period)],
                    periods := s.periods[env.period := stats.(challengesIssued := Wrap(stats.challengesIssued + 1))])
    {
      hide Good, Wrap, Encodable, ClearName;
      var deadline := Wrap(env.now + timeout);
      var challenge := new StorageChallenge(id, nodeAddress, chunkId, nonce, env.period, deadline);
      SetChallenge(challenge);
      node.totalChallenges := Wrap(node.totalChallenges + 1);
      node.lastChallengedPeriod := env.period;
      SetNode(node);
      CountIssued(env.period);
    }

    /** Counts a passed challenge, if it was passed, in the statistics of a period. */
    method CountPassed(period: u64, valid: bool)
      requires Valid()
      modifies this
      ensures Valid()
      ensures var s, stats := old(typed), old(typed).Stats(period);
        typed == s.(periods := s.periods[period :=
                      stats.(challengesPassed := Wrap(stats.challengesPassed + if valid then 1 else 0))])
    {
      hide Good;
      var stats := GetPeriodStats(period);
      WrapSmall(stats.challengesPassed);
      if valid {
        stats.challengesPassed := Wrap(stats.challengesPassed + 1);
      }
      SetPeriodStats(stats);
    }

    /** Counts a passed challenge, if it was passed, for its node, if there is one. */
    method CreditNode(address: Text, valid: bool)
      requires Valid() && ClearName(address)
      modifies this
      ensures Valid()
      ensures var s := old(typed);
        typed == if address !in s.nodes then s else
          var node := s.nodes[address];
          s.(nodes := s.nodes[address := node.(passedChallenges :=
                                                 Wrap(node.passedChallenges + if valid then 1 else 0))])
    {
      hide Good, ClearName, NodeFound, Aliased;
      var node := GetNode(address);
      if node != null {
        WrapSmall(node.passedChallenges);
        if valid {
          node.passedChallenges := Wrap(node.passedChallenges + 1);
        }
        SetNode(node);
      }
    }

    method SubmitProof(env: Env, id: Text, proof: Bytes) returns (r: Receipt)
      requires Valid() && Admissible(env)
      modifies this
      ensures Valid() && Follows(old(typed), OnSubmitProof(old(typed), env, id, proof), typed, r)
      ensures r.Rejected? ==> entries == old(entries)
    {
      hide Good, Encodable, ClearName, NodeFound, Aliased;
      var paused := IsPaused();
      if paused {
        return Rejected(ContractPaused);
      }
      var challenge := GetChallenge(id);
      if challenge == null {
        return Rejected(ChallengeNotFound);
      }
      if challenge.resolved {
        return Rejected(ChallengeResolved);
      }
      if env.caller != challenge.nodeAddress {
        return Rejected(NotChallengedNode);
      }
      if env.now > challenge.deadline {
        return Rejected(DeadlinePassed);
      }
      var proofValid := |proof| > 0;
      challenge.resolved := true;
      challenge.passed := proofValid;
      SetChallenge(challenge);
      CreditNode(challenge.nodeAddress, proofValid);
      CountPassed(challenge.issuedPeriod, proofValid);
      return Accepted(0);
    }

    method ResolveExpiredChallenges(env: Env, ids: seq<Text>) returns (r: Receipt)
      requires Valid()
      modifies this
      ensures Valid() && Follows(old(typed), OnResolveExpiredChallenges(old(typed), env, ids), typed, r)
    {
      hide Good;
      for i := 0 to |ids|
        invariant Valid()
        invariant typed == old(typed).(challenges := ExpireUpTo(old(typed).challenges, env.now, ids, i))
      {
        var challenge := GetChallenge(ids[i]);
        if challenge == null || challenge.resolved {
          continue;
        }
        if env.now > challenge.deadline {
          challenge.resolved := true;
          challenge.passed := false;
          SetChallenge(challenge);
        }
      }
      return Accepted(0);
    }

    /** Whether every active provider in the list was last challenged in `period`. */
    method CheckChallenged(period: u64, addresses: seq<Text>) returns (ok: bool)
      requires Valid()
      ensures ok <==> AllChallenged(typed.nodes, period, addresses)
                      && (period == MAX64 || NoneAliased(typed, addresses))
    {
      hide Good;
      for i := 0 to |addresses|
        invariant AllChallenged(typed.nodes, period, addresses[..i])
        invariant period == MAX64 || NoneAliased(typed, addresses[..i])
      {
        var node := GetNode(addresses[i]);
        if node == null || !node.active {
          continue;
        }
        if node.lastChallengedPeriod != period {
          return false;
        }
      }
      assert addresses[..|addresses|] == addresses;
      return true;
    }

    method DistributeRewards(env: Env, period: u64, addresses: seq<Text>) returns (r: Receipt)
      requires Valid()
      modifies this
      ensures Valid() && Follows(old(typed), OnFlatDistribute(old(typed), env, period, addresses), typed, r)
      ensures r.Rejected? ==> entries == old(entries)
    {
      hide Good, Wrap;
      var paused := IsPaused();
      if paused {
        return Rejected(ContractPaused);
      }
      var mayChallenge := MayChallenge(env.caller);
      if !mayChallenge {
        return Rejected(NotChallenger);
      }
      var stats := GetPeriodStats(period);
      if stats.rewardsDistributed {
        return Rejected(AlreadyDistributed);
      }
      var challenged := CheckChallenged(period, addresses);
      if !challenged {
        return Rejected(ProviderNotChallenged);
      }
      var config := GetConfig();
      var totalDistributed := PayAll(config.rewardPerGbPerPeriod, period, addresses);
      stats.totalRewardsDistributed := totalDistributed;
      stats.rewardsDistributed := true;
      SetPeriodStats(stats);
      return Accepted(0);
    }

    /** The payout loop. */
    method PayAll(rate: u64, period: u64, addresses: seq<Text>) returns (totalDistributed: u64)
      requires Valid()
      modifies this
      ensures Valid()
      ensures var p := PayUpTo(old(typed).nodes, rate, period, addresses, |addresses|);
        typed == old(typed).(nodes := p.nodes) && totalDistributed == p.total
    {
      hide Good, Wrap;
      totalDistributed := 0;
      for i := 0 to |addresses|
        invariant Valid()
        invariant var p := PayUpTo(old(typed).nodes, rate, period, addresses, i);
          typed == old(typed).(nodes := p.nodes) && totalDistributed == p.total
      {
        WrapSmall(0);
        var node := GetNode(addresses[i]);
        if node == null || !node.active {
          continue;
        }
        if node.passedChallenges != node.totalChallenges {
          continue;
        }
        var reward := Wrap(node.allocatedGb * rate);
        if reward > 0 {
          node.pendingRewards := Wrap(node.pendingRewards + reward);
          node.lastRewardedPeriod := period;
          SetNode(node);
          totalDistributed := Wrap(totalDistributed + reward);
        }
      }
    }

    method ClaimRewards(env: Env, balance: nat) returns (r: Receipt)
      requires Valid() && Admissible(env)
      modifies this
      ensures Valid() && Follows(old(typed), OnClaimRewards(old(typed), env, balance), typed, r)
      ensures r.Rejected? ==> entries == old(entries)
    {
      hide Good, ClearName, Encodable, NodeFound, Aliased;
      var paused := IsPaused();
      if paused {
        return Rejected(ContractPaused);
      }
      var node := GetNode(env.caller);
      if node == null {
        return Rejected(NodeNotRegistered);
      }
      if node.pendingRewards == 0 {
        return Rejected(NothingToClaim);
      }
      var amount := node.pendingRewards;
      if balance < amount {
        return Rejected(InsufficientBalance);
      }
      node.pendingRewards := 0;
      SetNode(node);
      return Accepted(amount);
    }

    method UpdateProviderMetadata(env: Env, endpoint: Text, p2pAddrs: seq<Text>) returns (r: Receipt)
      requires Valid() && Admissible(env)
      modifies this
      ensures Valid() && Follows(old(typed), OnUpdateProviderMetadata(old(typed), env, endpoint, p2pAddrs), typed, r)
      ensures r.Rejected? ==> entries == old(entries)
    {
      hide Good, ClearName, Encodable, NodeFound, Aliased;
      var paused := IsPaused();
      if paused {
        return Rejected(ContractPaused);
      }
      var node := GetNode(env.caller);
      if node == null {
        return Rejected(NodeNotRegistered);
      }
      SetMetadata(env.caller, endpoint, p2pAddrs);
      return Accepted(0);
    }

    method RegisterAsUploader(env: Env, amountGb: u64) returns (r: Receipt)
      requires Valid() && ListStorable(typed.uploaderIndex + [env.caller])
      modifies this
      ensures Valid() && Follows(old(typed), OnRegisterAsUploader(old(typed), env, amountGb), typed, r)
      ensures r.Rejected? ==> entries == old(entries)
    {
      hide Good, Wrap;
      var paused := IsPaused();
      if paused {
        return Rejected(ContractPaused);
      }
      if amountGb == 0 {
        return Rejected(ZeroAmount);
      }
      var pricePerGb := GetUploaderPricePerGb();
      if env.coins < Wrap(amountGb * pricePerGb) {
        return Rejected(InsufficientPayment);
      }
      var totalAllocatedGb := GetTotalAllocatedGb();
      var totalBookedGb := GetTotalBookedGb();
      var existingGb := GetBookedUploaderGb(env.caller);
      var uploaderIndex := GetUploaderIndex();
      var isInIndex := env.caller in uploaderIndex;
      var newTotalBookedGb := if isInIndex then Wrap(totalBookedGb - existingGb + amountGb)
                              else Wrap(totalBookedGb + amountGb);
      if totalAllocatedGb < newTotalBookedGb {
        return Rejected(InsufficientCapacity);
      }
      SetBookedUploaderGb(env.caller, amountGb);
      if !isInIndex {
        uploaderIndex := uploaderIndex + [env.caller];
        SetUploaderIndex(uploaderIndex);
      }
      return Accepted(0);
    }

    method RecordFileUpload(env: Env, uploader: Text, size: u64) returns (r: Receipt)
      requires Valid()
      modifies this
      ensures Valid() && Follows(old(typed), OnRecordFileUpload(old(typed), env, uploader, size), typed, r)
      ensures r.Rejected? ==> entries == old(entries)
    {
      hide Good, Wrap;
      var paused := IsPaused();
      if paused {
        return Rejected(ContractPaused);
      }
      var callerIsAdmin := IsStorageAdmin(env.caller);
      if !callerIsAdmin {
        return Rejected(NotStorageAdmin);
      }
      if size == 0 {
        return Rejected(ZeroAmount);
      }
      var uploaderIsAdmin := IsStorageAdmin(uploader);
      var booked := GetBookedUploaderGb(uploader);
      if !uploaderIsAdmin && booked == 0 {
        return Rejected(UploaderNotAllowed);
      }
      var currentUsage := GetUploaderUsage(uploader);
      SetUploaderUsage(uploader, Wrap(currentUsage + size));
      return Accepted(0);
    }

    method RemoveFileUpload(env: Env, uploader: Text, size: u64) returns (r: Receipt)
      requires Valid()
      modifies this
      ensures Valid() && Follows(old(typed), OnRemoveFileUpload(old(typed), env, uploader, size), typed, r)
      ensures r.Rejected? ==> entries == old(entries)
    {
      hide Good;
      var paused := IsPaused();
      if paused {
        return Rejected(ContractPaused);
      }
      var callerIsAdmin := IsStorageAdmin(env.caller);
      if !callerIsAdmin {
        return Rejected(NotStorageAdmin);
      }
      if size == 0 {
        return Rejected(ZeroAmount);
      }
      var currentUsage := GetUploaderUsage(uploader);
      var newUsage := if currentUsage > size then currentUsage - size else 0;
      SetUploaderUsage(uploader, newUsage);
      return Accepted(0);
    }

    method UpdateConfig(env: Env, config: StorageConfig) returns (r: Receipt)
      requires Valid()
      modifies this
      ensures Valid() && Follows(old(typed), OnAdmin(old(typed), env, Op.UpdateConfig(config.Value())), typed, r)
      ensures r.Rejected? ==> entries == old(entries)
    {
      hide Good;
      var admin := IsAdmin(env.caller);
      if !admin {
        return Rejected(NotAdmin);
      }
      SetConfig(config);
      return Accepted(0);
    }

    method AddChallenger(env: Env, a: Text) returns (r: Receipt)
      requires Valid()
      modifies this
      ensures Valid() && Follows(old(typed), OnAdmin(old(typed), env, Op.AddChallenger(a)), typed, r)
      ensures r.Rejected? ==> entries == old(entries)
    {
      hide Represents, KeyBytes, EncodeU64, EncodeText, EncodeTexts;
      hide EncodeNode, EncodeChallenge, EncodeStats, EncodeConfig;
      var admin := IsAdmin(env.caller);
      if !admin {
        return Rejected(NotAdmin);
      }
      Put(ChallengerKey(a), KeyBytes(ChallengerKey(a)), Ascii("true"), typed.(challengers := typed.challengers + {a}));
      return Accepted(0);
    }

    method RemoveChallenger(env: Env, a: Text) returns (r: Receipt)
      requires Valid()
      modifies this
      ensures Valid() && Follows(old(typed), OnAdmin(old(typed), env, Op.RemoveChallenger(a)), typed, r)
      ensures r.Rejected? ==> entries == old(entries)
    {
      hide Represents, KeyBytes, EncodeU64, EncodeText, EncodeTexts;
      hide EncodeNode, EncodeChallenge, EncodeStats, EncodeConfig;
      var admin := IsAdmin(env.caller);
      if !admin {
        return Rejected(NotAdmin);
      }
      Del(ChallengerKey(a), KeyBytes(ChallengerKey(a)), typed.(challengers := typed.challengers - {a}));
      return Accepted(0);
    }

    method AddStorageAdmin(env: Env, a: Text) returns (r: Receipt)
      requires Valid()
      modifies this
      ensures Valid() && Follows(old(typed), OnAdmin(old(typed), env, Op.AddStorageAdmin(a)), typed, r)
      ensures r.Rejected? ==> entries == old(entries)
    {
      hide Represents, KeyBytes, EncodeU64, EncodeText, EncodeTexts;
      hide EncodeNode, EncodeChallenge, EncodeStats, EncodeConfig;
      var admin := IsAdmin(env.caller);
      if !admin {
        return Rejected(NotAdmin);
      }
      Put(StorageAdminKey(a), KeyBytes(StorageAdminKey(a)), Ascii("true"),
          typed.(storageAdmins := typed.storageAdmins + {a}));
      return Accepted(0);
    }

    method RemoveStorageAdmin(env: Env, a: Text) returns (r: Receipt)
      requires Valid()
      modifies this
      ensures Valid() && Follows(old(typed), OnAdmin(old(typed), env, Op.RemoveStorageAdmin(a)), typed, r)
      ensures r.Rejected? ==> entries == old(entries)
    {
      hide Represents, KeyBytes, EncodeU64, EncodeText, EncodeTexts;
      hide EncodeNode, EncodeChallenge, EncodeStats, EncodeConfig;
      var admin := IsAdmin(env.caller);
      if !admin {
        return Rejected(NotAdmin);
      }
      Del(StorageAdminKey(a), KeyBytes(StorageAdminKey(a)), typed.(storageAdmins := typed.storageAdmins - {a}));
      return Accepted(0);
    }

    method SetUploaderPricePerGb(env: Env, price: u64) returns (r: Receipt)
      requires Valid()
      modifies this
      ensures Valid() && Follows(old(typed), OnAdmin(old(typed), env, Op.SetUploaderPricePerGb(price)), typed, r)
      ensures r.Rejected? ==> entries == old(entries)
    {
      hide Represents, KeyBytes, EncodeU64, EncodeText, EncodeTexts;
      hide EncodeNode, EncodeChallenge, EncodeStats, EncodeConfig;
      var admin := IsAdmin(env.caller);
      if !admin {
        return Rejected(NotAdmin);
      }
      if price == 0 {
        return Rejected(ZeroAmount);
      }
      Put(PriceKey, KeyBytes(PriceKey), EncodeU64(price), typed.(uploaderPricePerGb := price));
      return Accepted(0);
    }

    method SetPaused(env: Env, paused: bool) returns (r: Receipt)
      requires Valid()
      modifies this
      ensures Valid() && Follows(old(typed), OnAdmin(old(typed), env, Op.SetPaused(paused)), typed, r)
      ensures r.Rejected? ==> entries == old(entries)
    {
      hide Represents, KeyBytes, EncodeU64, EncodeText, EncodeTexts;
      hide EncodeNode, EncodeChallenge, EncodeStats, EncodeConfig;
      var admin := IsAdmin(env.caller);
      if !admin {
        return Rejected(NotAdmin);
      }
      Put(PausedKey, KeyBytes(PausedKey), if paused then Ascii("true") else Ascii("false"),
          typed.(pauseFlag := Some(paused)));
      return Accepted(0);
    }

    method TransferAdmin(env: Env, newAdmin: Text) returns (r: Receipt)
      requires Valid()
      modifies this
      ensures Valid() && Follows(old(typed), OnAdmin(old(typed), env, Op.TransferAdmin(newAdmin)), typed, r)
      ensures r.Rejected? ==> entries == old(entries)
    {
      hide Represents, KeyBytes, EncodeU64, EncodeText, EncodeTexts;
      hide EncodeNode, EncodeChallenge, EncodeStats, EncodeConfig;
      var admin := IsAdmin(env.caller);
      if !admin {
        return Rejected(NotAdmin);
      }
      Put(AdminKey, KeyBytes(AdminKey), newAdmin.utf8, typed.(admin := newAdmin));
      return Accepted(0);
    }

    method FundContract(env: Env) returns (r: Receipt)
      requires Valid()
      modifies this
      ensures Valid() && Follows(old(typed), OnFundContract(old(typed), env), typed, r) && entries == old(entries)
    {
      if env.coins == 0 {
        return Rejected(ZeroAmount);
      }
      return Accepted(0);
    }

    // ---- Any call ----

    method CallAdmin(env: Env, op: Op) returns (r: Receipt)
      requires Valid() && IsAdminCall(op)
      modifies this
      ensures Valid() && Follows(old(typed), OnAdmin(old(typed), env, op), typed, r)
      ensures r.Rejected? ==> entries == old(entries)
    {
      hide Good, Follows, OnAdmin;
      match op
      case UpdateConfig(c) =>
        var config := new StorageConfig();
        config.rewardPerGbPerPeriod, config.minAllocatedGb := c.rewardPerGbPerPeriod, c.minAllocatedGb;
        config.maxAllocatedGb, config.challengeResponseTimeout := c.maxAllocatedGb, c.challengeResponseTimeout;
        config.rewardDistributionPeriod := c.rewardDistributionPeriod;
        r := UpdateConfig(env, config);
      case AddChallenger(a) => r := AddChallenger(env, a);
      case RemoveChallenger(a) => r := RemoveChallenger(env, a);
      case AddStorageAdmin(a) => r := AddStorageAdmin(env, a);
      case RemoveStorageAdmin(a) => r := RemoveStorageAdmin(env, a);
      case SetUploaderPricePerGb(price) => r := SetUploaderPricePerGb(env, price);
      case SetPaused(paused) => r := SetPaused(env, paused);
      case TransferAdmin(a) => r := TransferAdmin(env, a);
    }

    method CallNode(env: Env, balance: nat, op: Op) returns (r: Receipt)
      requires Valid() && Manageable(typed, env, op) && IsNodeCall(op)
      modifies this
      ensures Valid() && Follows(old(typed), Step(old(typed), env, balance, op), typed, r)
      ensures r.Rejected? ==> entries == old(entries)
    {
      hide Good, Admissible, ListStorable, Follows;
      match op
      case RegisterStorageNode(gb, endpoint, p2pAddrs) => r := RegisterStorageNode(env, gb, endpoint, p2pAddrs);
      case UpdateStorageAllocation(newGb) => r := UpdateStorageAllocation(env, newGb);
      case UnregisterStorageNode => r := UnregisterStorageNode(env);
    }

    method CallProvider(env: Env, balance: nat, op: Op) returns (r: Receipt)
      requires Valid() && Manageable(typed, env, op)
      requires op.SubmitProof? || op.ClaimRewards? || op.UpdateProviderMetadata?
      modifies this
      ensures Valid() && Follows(old(typed), Step(old(typed), env, balance, op), typed, r)
      ensures r.Rejected? ==> entries == old(entries)
    {
      hide Good, Admissible, Follows;
      match op
      case SubmitProof(id, proof) => r := SubmitProof(env, id, proof);
      case ClaimRewards => r := ClaimRewards(env, balance);
      case UpdateProviderMetadata(endpoint, p2pAddrs) => r := UpdateProviderMetadata(env, endpoint, p2pAddrs);
    }

    method CallUploader(env: Env, balance: nat, op: Op) returns (r: Receipt)
      requires Valid() && Manageable(typed, env, op)
      requires op.RegisterAsUploader? || op.RecordFileUpload? || op.RemoveFileUpload? || op.FundContract?
      modifies this
      ensures Valid() && Follows(old(typed), Step(old(typed), env, balance, op), typed, r)
      ensures r.Rejected? ==> entries == old(entries)
    {
      hide Good, ListStorable, Follows;
      match op
      case RegisterAsUploader(amountGb) => r := RegisterAsUploader(env, amountGb);
      case RecordFileUpload(uploader, size) => r := RecordFileUpload(env, uploader, size);
      case RemoveFileUpload(uploader, size) => r := RemoveFileUpload(env, uploader, size);
      case FundContract => r := FundContract(env);
    }

    method CallChallenger(env: Env, balance: nat, op: Op) returns (r: Receipt)
      requires Valid() && Manageable(typed, env, op)
      requires op.IssueChallenge? || op.ResolveExpiredChallenges? || op.DistributeRewards?
      modifies this
      ensures Valid() && Follows(old(typed), FlatStep(old(typed), env, balance, op), typed, r)
      ensures r.Rejected? ==> entries == old(entries)
    {
      hide Good, Encodable, OnFlatIssue, OnFlatDistribute;
      match op
      case IssueChallenge(id, a, chunkId, nonce) => r := IssueChallenge(env, id, a, chunkId, nonce);
      case ResolveExpiredChallenges(ids) => r := ResolveExpiredChallenges(env, ids);
      case DistributeRewards(period, addresses) => r := DistributeRewards(env, period, addresses);
    }

    /** Whatever the call, and whatever names it carries, the datastore follows. */
    method Call(env: Env, balance: nat, op: Op) returns (r: Receipt)
      requires Valid() && Manageable(typed, env, op)
      modifies this
      ensures Valid() && Follows(old(typed), FlatStep(old(typed), env, balance, op), typed, r)
      ensures r.Rejected? ==> entries == old(entries)
    {
      StepsAgree(typed, env, balance, op);
      hide Good, Manageable, Follows, FlatStep, Step;
      if IsAdminCall(op) {
        r := CallAdmin(env, op);
      } else if IsNodeCall(op) {
        r := CallNode(env, balance, op);
      } else if op.SubmitProof? || op.ClaimRewards? || op.UpdateProviderMetadata? {
        r := CallProvider(env, balance, op);
      } else if op.IssueChallenge? || op.ResolveExpiredChallenges? || op.DistributeRewards? {
        r := CallChallenger(env, balance, op);
      } else {
        r := CallUploader(env, balance, op);
      }
    }
  }

  lemma StepsAgree(s: State, env: Env, balance: nat, op: Op)
    ensures !op.IssueChallenge? && !op.DistributeRewards? ==> FlatStep(s, env, balance, op) == Step(s, env, balance, op)
    ensures IsAdminCall(op) ==> Step(s, env, balance, op) == OnAdmin(s, env, op)
  {
  }

  /** After any run of the contract, the datastore represents the typed state of the run on it; and as long as
      the names in the calls are clear that is the run of the typed contract, so that every result about
      runs speaks about the datastore. */
  method Replay(admin: Text, config: Option<Config>, evs: seq<Event>) returns (c: StorageRegistry, balance: nat)
    requires ManageableRun(Genesis(admin, config), evs)
    ensures fresh(c) && c.Valid()
    ensures var w := FlatRun(Genesis(admin, config), evs); c.typed == w.s && balance == w.balance
    ensures (forall i :: 0 <= i < |evs| && evs[i].Invoke? ==> NamesClear(evs[i].op)) ==>
      var w := Run(Genesis(admin, config), evs); c.typed == w.s && balance == w.balance
  {
    hide Good, Manageable, FlatStep, NamesClear, Run;
    ghost var w0 := Genesis(admin, config);
    c := new StorageRegistry(admin, config);
    balance := 0;
    for i := 0 to |evs|
      invariant fresh(c) && c.Valid()
      invariant c.typed == FlatRun(w0, evs[..i]).s && balance == FlatRun(w0, evs[..i]).balance
    {
      assert evs[..i + 1][..i] == evs[..i];
      match evs[i]
      case CoinsArrive(amount) => balance := balance + amount;
      case Invoke(env, op) =>
        FlatPaidIsCovered(FlatRun(w0, evs[..i]), env, op);
        var r := c.Call(env, balance + env.coins, op);
        if r.Accepted? {
          balance := balance + env.coins - r.paid;
        }
    }
    assert evs[..|evs|] == evs;
    if forall i :: 0 <= i < |evs| && evs[i].Invoke? ==> NamesClear(evs[i].op) {
      ClearRunsAgree(w0, evs);
    }
  }
}
