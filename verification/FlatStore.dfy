/** The flat datastore as a representation of the typed state: which bytes every key must hold. */
module FlatStore {
  import opened Words
  import opened Records
  import opened Registry
  import opened Wire
  import opened Layouts
  import opened Keys

  type Entries = map<Bytes, Bytes>

  function Marker(b: bool): Bytes {
    if b then Ascii("true") else Ascii("false")
  }

  /** What the datastore holds under a key in state `s`. */
  ghost function Stored(s: State, k: Key): Option<Bytes> {
    match k
    case NodeKey(a) => if a in s.nodes then Some(EncodeNode(s.nodes[a])) else None
    case NodeIndexKey => if s.nodeIndex == [] then None else Some(EncodeTexts(s.nodeIndex))
    case SlotKey(i) => if i in s.slots then Some(s.slots[i].utf8) else None
    case MetadataKey(a) =>
      if a in s.metadata then Some(EncodeText(s.metadata[a].endpoint) + EncodeTexts(s.metadata[a].p2pAddrs)) else None
    case ChallengeKey(id) => if id in s.challenges then Some(EncodeChallenge(s.challenges[id])) else None
    case PeriodKey(p) => if p in s.periods then Some(EncodeStats(s.periods[p])) else None
    case ChallengerKey(a) => if a in s.challengers then Some(Marker(true)) else None
    case StorageAdminKey(a) => if a in s.storageAdmins then Some(Marker(true)) else None
    case BookingKey(a) => if a in s.bookings then Some(EncodeU64(s.bookings[a])) else None
    case UploaderIndexKey => if s.uploaderIndex == [] then None else Some(EncodeTexts(s.uploaderIndex))
    case PriceKey => Some(EncodeU64(s.uploaderPricePerGb))
    case UsageKey(a) => if a in s.usage then Some(EncodeU64(s.usage[a])) else None
    case AdminKey => Some(s.admin.utf8)
    case ConfigKey => Some(EncodeConfig(s.config))
    case TotalNodesKey => Some(EncodeU64(s.totalNodes))
    case PausedKey => if s.pauseFlag.None? then None else Some(Marker(s.pauseFlag.value))
  }

  function Lookup(e: Entries, b: Bytes): Option<Bytes> {
    if b in e then Some(e[b]) else None
  }

  ghost predicate Represents(e: Entries, s: State) {
    forall k: Key :: Clear(k) ==> Lookup(e, KeyBytes(k)) == Stored(s, k)
  }

  ghost predicate NodeStorable(a: Text, n: Node) {
    n.address == a && ClearName(a) && Encodable(a)
  }

  ghost predicate ChallengeStorable(id: Text, c: Challenge) {
    && c.id == id
    && Encodable(id)
    && Encodable(c.nodeAddress)
    && Encodable(c.chunkId)
  }

  ghost predicate ListStorable(xs: seq<Text>) {
    EncodableList(xs) && forall a :: a in xs ==> ClearName(a)
  }

  /** The text does not begin with a length prefix that it could hold. */
  predicate Unreadable(t: Text) {
    NextText(t.utf8, 0).result.Err?
  }

  /** Every record carries its own key, and every text and list fits its length prefix. */
  ghost predicate Storable(s: State) {
    && (forall a :: a in s.nodes ==> NodeStorable(a, s.nodes[a]))
    && (forall id :: id in s.challenges ==> ChallengeStorable(id, s.challenges[id]))
    && (forall p :: p in s.periods ==> s.periods[p].period == p)
    && ListStorable(s.nodeIndex)
    && ListStorable(s.uploaderIndex)
    && (forall i :: i in s.slots ==> Unreadable(s.slots[i]))
  }

  ghost predicate Good(e: Entries, s: State) {
    Represents(e, s) && Storable(s)
  }

  /** The two states differ under key `k` at most. */
  ghost predicate SameElsewhere(s: State, s': State, k: Key) {
    forall k' :: k' != k ==> Stored(s', k') == Stored(s, k')
  }

  lemma LookupPut(e: Entries, k: Key, value: Bytes, k': Key)
    requires Clear(k) && Clear(k')
    ensures Lookup(e[KeyBytes(k) := value], KeyBytes(k')) == if k' == k then Some(value) else Lookup(e, KeyBytes(k'))
  {
    hide KeyBytes;
    if k' != k {
      ClearKeysDiffer(k, k');
    }
  }

  /** Writing one key moves the representation to the state that differs there. */
  lemma {:induction false} PutRepresents(e: Entries, s: State, k: Key, value: Bytes, s': State)
    requires Represents(e, s) && Clear(k)
    requires Stored(s', k) == Some(value) && SameElsewhere(s, s', k)
    ensures Represents(e[KeyBytes(k) := value], s')
  {
    hide Stored;
    hide KeyBytes;
    forall k' | Clear(k')
      ensures Lookup(e[KeyBytes(k) := value], KeyBytes(k')) == Stored(s', k')
    {
      assert Lookup(e, KeyBytes(k')) == Stored(s, k');
      LookupPut(e, k, value, k');
    }
  }

  /** Deleting one key likewise. */
  lemma {:induction false} DelRepresents(e: Entries, s: State, k: Key, s': State)
    requires Represents(e, s) && Clear(k)
    requires Stored(s', k) == None && SameElsewhere(s, s', k)
    ensures Represents(e - {KeyBytes(k)}, s')
  {
    hide Stored;
    hide KeyBytes;
    forall k' | Clear(k')
      ensures Lookup(e - {KeyBytes(k)}, KeyBytes(k')) == Stored(s', k')
    {
      assert Lookup(e, KeyBytes(k')) == Stored(s, k');
      if k' != k {
        ClearKeysDiffer(k, k');
      }
    }
  }

  lemma BookingElsewhere(s: State, a: Text, gb: u64)
    requires Storable(s)
    ensures var s' := s.(bookings := SetSparse(s.bookings, a, gb));
      && SameElsewhere(s, s', BookingKey(a)) && Storable(s')
      && Stored(s', BookingKey(a)) == if gb == 0 then None else Some(EncodeU64(gb))
  {
    hide EncodeU64;
  }

  lemma UsageElsewhere(s: State, a: Text, n: u64)
    requires Storable(s)
    ensures var s' := s.(usage := SetSparse(s.usage, a, n));
      && SameElsewhere(s, s', UsageKey(a)) && Storable(s')
      && Stored(s', UsageKey(a)) == if n == 0 then None else Some(EncodeU64(n))
  {
    hide EncodeU64;
  }

  // ---- Reading back what was written ----

  lemma NodeReads(n: Node, before: Node)
    requires Encodable(n.address)
    ensures NodeWith(before, ReadAll(NODE_LAYOUT, EncodeNode(n), 0).got) == n
  {
    NodeRoundTrip(n, before, [], []);
    assert [] + EncodeNode(n) + [] == EncodeNode(n);
  }

  lemma ChallengeReads(c: Challenge, before: Challenge)
    requires Encodable(c.id) && Encodable(c.nodeAddress) && Encodable(c.chunkId)
    ensures ChallengeWith(before, ReadAll(CHALLENGE_LAYOUT, EncodeChallenge(c), 0).got) == c
  {
    ChallengeRoundTrip(c, before, [], []);
    assert [] + EncodeChallenge(c) + [] == EncodeChallenge(c);
  }

  lemma StatsReads(p: PeriodStats, before: PeriodStats)
    ensures StatsWith(before, ReadAll(STATS_LAYOUT, EncodeStats(p), 0).got) == p
  {
    StatsRoundTrip(p, before, [], []);
    assert [] + EncodeStats(p) + [] == EncodeStats(p);
  }

  lemma ConfigReads(c: Config, before: Config)
    ensures ConfigWith(before, ReadAll(CONFIG_LAYOUT, EncodeConfig(c), 0).got) == c
  {
    ConfigRoundTrip(c, before, [], []);
    assert [] + EncodeConfig(c) + [] == EncodeConfig(c);
  }

  lemma TextsRead(ts: seq<Text>)
    requires EncodableList(ts)
    ensures NextTexts(EncodeTexts(ts), 0).result == Ok(ts)
  {
    TextsAt(ts, [], []);
    assert [] + EncodeTexts(ts) + [] == EncodeTexts(ts);
  }

  lemma U64Reads(x: u64)
    ensures FromLittleEndian(EncodeU64(x)) == x
  {
    WordSizes();
    NumberRoundTrip(x, 8);
  }

  lemma MarkersDiffer()
    ensures Marker(true) != Marker(false)
  {
    assert |Marker(true)| == 4 && |Marker(false)| == 5;
  }
}
