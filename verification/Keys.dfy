/** The keys of the flat datastore: prefixes, decimal indices, and exactly when two keys coincide. */
module Keys {
  import opened Words

  /** The bytes of an ASCII literal. */
  function Ascii(s: string): (b: Bytes)
    ensures |b| == |s|
  {
    seq(|s|, i requires 0 <= i < |s| => s[i] as int % 256)
  }

  /** `u64.toString()`. */
  function Decimal(n: nat): (b: Bytes)
    ensures |b| > 0
    ensures forall i :: 0 <= i < |b| ==> 48 <= b[i] < 58
  {
    if n < 10 then [48 + n] else Decimal(n / 10) + [48 + n % 10]
  }

  lemma {:induction false} DecimalInjective(n: nat, m: nat)
    requires Decimal(n) == Decimal(m)
    ensures n == m
  {
    var b := Decimal(n);
    if n >= 10 && m >= 10 {
      assert b[..|b| - 1] == Decimal(n / 10) == Decimal(m / 10);
      DecimalInjective(n / 10, m / 10);
      assert b[|b| - 1] == 48 + n % 10 == 48 + m % 10;
    }
  }

  /** What a key of the datastore stands for. */
  datatype Key =
    | NodeKey(address: Text)
    | NodeIndexKey
    | SlotKey(index: u64)
    | MetadataKey(address: Text)
    | ChallengeKey(id: Text)
    | PeriodKey(period: u64)
    | ChallengerKey(address: Text)
    | StorageAdminKey(address: Text)
    | BookingKey(address: Text)
    | UploaderIndexKey
    | PriceKey
    | UsageKey(address: Text)
    | AdminKey
    | ConfigKey
    | TotalNodesKey
    | PausedKey

  /** The literal part of a key. */
  function Head(k: Key): Bytes {
    match k
    case NodeKey(_) => Ascii("node_")
    case NodeIndexKey => Ascii("node_index")
    case SlotKey(_) => Ascii("node_idx_")
    case MetadataKey(_) => Ascii("provider_meta_")
    case ChallengeKey(_) => Ascii("chal_")
    case PeriodKey(_) => Ascii("period_")
    case ChallengerKey(_) => Ascii("challenger_")
    case StorageAdminKey(_) => Ascii("storage_admin_")
    case BookingKey(_) => Ascii("uploader_booking_")
    case UploaderIndexKey => Ascii("uploader_index")
    case PriceKey => Ascii("uploader_price_per_gb")
    case UsageKey(_) => Ascii("uploader_usage_")
    case AdminKey => Ascii("admin")
    case ConfigKey => Ascii("config")
    case TotalNodesKey => Ascii("total_nodes")
    case PausedKey => Ascii("paused")
  }

  /** The variable part of a key. */
  function Rest(k: Key): Bytes {
    match k
    case NodeKey(a) => a.utf8
    case SlotKey(i) => Decimal(i)
    case MetadataKey(a) => a.utf8
    case ChallengeKey(id) => id.utf8
    case PeriodKey(p) => Decimal(p)
    case ChallengerKey(a) => a.utf8
    case StorageAdminKey(a) => a.utf8
    case BookingKey(a) => a.utf8
    case UsageKey(a) => a.utf8
    case _ => []
  }

  function KeyBytes(k: Key): Bytes {
    Head(k) + Rest(k)
  }

  /** Families of keys that a few characters tell apart; only the three `node_` families share a number. */
  function Family(k: Key): nat {
    match k
    case NodeKey(_) => 0
    case NodeIndexKey => 0
    case SlotKey(_) => 0
    case MetadataKey(_) => 1
    case PeriodKey(_) => 2
    case PausedKey => 3
    case ConfigKey => 4
    case ChallengeKey(_) => 5
    case ChallengerKey(_) => 6
    case BookingKey(_) => 7
    case UploaderIndexKey => 8
    case PriceKey => 9
    case UsageKey(_) => 10
    case StorageAdminKey(_) => 11
    case AdminKey => 12
    case TotalNodesKey => 13
  }

  function CharAt(b: Bytes, i: nat): int {
    if i < |b| then b[i] else -1
  }

  /** The family of a key, read off its bytes. */
  function FamilyOf(b: Bytes): nat {
    if CharAt(b, 0) == 'n' as int then 0
    else if CharAt(b, 0) == 'p' as int then
      if CharAt(b, 1) == 'r' as int then 1 else if CharAt(b, 1) == 'e' as int then 2 else 3
    else if CharAt(b, 0) == 'c' as int then
      if CharAt(b, 1) == 'o' as int then 4 else if CharAt(b, 4) == '_' as int then 5 else 6
    else if CharAt(b, 0) == 'u' as int then
      if CharAt(b, 9) == 'b' as int then 7
      else if CharAt(b, 9) == 'i' as int then 8
      else if CharAt(b, 9) == 'p' as int then 9
      else 10
    else if CharAt(b, 0) == 's' as int then 11
    else if CharAt(b, 0) == 'a' as int then 12
    else 13
  }

  lemma HeadIsVisible(k: Key, i: nat)
    requires i < |Head(k)|
    ensures CharAt(KeyBytes(k), i) == Head(k)[i]
  {
  }

  /** The characters that tell the families apart. */
  lemma NodeAndPeriodLetters(k: Key)
    requires Family(k) <= 3
    ensures var h := Head(k);
      match k {
        case NodeKey(_) => h[0] == 'n' as int
        case NodeIndexKey => h[0] == 'n' as int
        case SlotKey(_) => h[0] == 'n' as int
        case MetadataKey(_) => h[0] == 'p' as int && h[1] == 'r' as int
        case PeriodKey(_) => h[0] == 'p' as int && h[1] == 'e' as int
        case PausedKey => h[0] == 'p' as int && h[1] == 'a' as int
        case _ => true
      }
  {
  }

  lemma UploaderLetters(k: Key)
    requires 7 <= Family(k) <= 10
    ensures var h := Head(k);
      match k {
        case BookingKey(_) => h[0] == 'u' as int && h[9] == 'b' as int
        case UploaderIndexKey => h[0] == 'u' as int && h[9] == 'i' as int
        case PriceKey => h[0] == 'u' as int && h[9] == 'p' as int
        case UsageKey(_) => h[0] == 'u' as int && h[9] == 'u' as int
        case _ => true
      }
  {
  }

  lemma OtherLetters(k: Key)
    requires 4 <= Family(k) <= 6 || 11 <= Family(k)
    ensures var h := Head(k);
      match k {
        case ConfigKey => h[0] == 'c' as int && h[1] == 'o' as int
        case ChallengeKey(_) => h[0] == 'c' as int && h[1] == 'h' as int && h[4] == '_' as int
        case ChallengerKey(_) => h[0] == 'c' as int && h[1] == 'h' as int && h[4] == 'l' as int
        case StorageAdminKey(_) => h[0] == 's' as int
        case AdminKey => h[0] == 'a' as int
        case TotalNodesKey => h[0] == 't' as int
        case _ => true
      }
  {
  }

  lemma FamilyIsVisible(k: Key)
    ensures FamilyOf(KeyBytes(k)) == Family(k)
  {
    if Family(k) <= 3 {
      NodeAndPeriodLetters(k);
    } else if 7 <= Family(k) <= 10 {
      UploaderLetters(k);
    } else {
      OtherLetters(k);
    }
    hide KeyBytes, Ascii;
    var h := Head(k);
    HeadIsVisible(k, 0);
    HeadIsVisible(k, 1);
    HeadIsVisible(k, 4);
    if |h| > 9 {
      HeadIsVisible(k, 9);
    }
  }

  /** The only collisions: a node key whose address spells the rest of another `node_` key. */
  predicate Collides(k: Key, k': Key) {
    && k.NodeKey?
    && ((k'.NodeIndexKey? && k.address.utf8 == Ascii("index"))
        || (k'.SlotKey? && k.address.utf8 == Ascii("idx_") + Decimal(k'.index)))
  }

  lemma SameHead(k: Key, k': Key)
    requires KeyBytes(k) == KeyBytes(k') && Head(k) == Head(k')
    ensures Rest(k) == Rest(k')
  {
    assert KeyBytes(k)[|Head(k)|..] == Rest(k);
    assert KeyBytes(k')[|Head(k)|..] == Rest(k');
  }

  lemma NodePrefixes()
    ensures Ascii("node_index") == Ascii("node_") + Ascii("index")
    ensures Ascii("node_idx_") == Ascii("node_") + Ascii("idx_")
  {
  }

  lemma NodeAgainst(a: Text, k': Key)
    requires k'.NodeIndexKey? || k'.SlotKey?
    ensures KeyBytes(NodeKey(a)) == KeyBytes(k') <==> Collides(NodeKey(a), k')
  {
    NodePrefixes();
    var node := Ascii("node_");
    var tail := if k'.NodeIndexKey? then Ascii("index") else Ascii("idx_") + Decimal(k'.index);
    assert KeyBytes(k') == node + tail;
    assert (node + a.utf8)[5..] == a.utf8 && (node + tail)[5..] == tail;
  }

  lemma IndexIsNoSlot(i: u64)
    ensures KeyBytes(NodeIndexKey) != KeyBytes(SlotKey(i))
  {
    assert KeyBytes(NodeIndexKey)[6] == 'n' as int;
    assert KeyBytes(SlotKey(i))[6] == 'd' as int;
  }

  lemma SameFamily(k: Key, k': Key)
    requires Family(k) == Family(k') != 0
    ensures Head(k) == Head(k')
    ensures Rest(k) == Rest(k') ==> k == k'
  {
    hide Ascii;
    hide Decimal;
    if k.PeriodKey? && Rest(k) == Rest(k') {
      DecimalInjective(k.period, k'.period);
    }
  }

  /** Two keys have the same bytes exactly when they are the same key or collide. */
  lemma KeysCoincide(k: Key, k': Key)
    ensures KeyBytes(k) == KeyBytes(k') <==> k == k' || Collides(k, k') || Collides(k', k)
  {
    FamilyIsVisible(k);
    FamilyIsVisible(k');
    hide KeyBytes;
    hide FamilyOf;
    if Family(k) == 0 && Family(k') == 0 {
      NodeFamily(k, k');
    } else if KeyBytes(k) == KeyBytes(k') {
      SameFamily(k, k');
      SameHead(k, k');
    }
  }

  lemma NodeFamily(k: Key, k': Key)
    requires Family(k) == 0 && Family(k') == 0
    ensures KeyBytes(k) == KeyBytes(k') <==> k == k' || Collides(k, k') || Collides(k', k)
  {
    hide Head;
    hide FamilyOf;
    match (k, k')
    case (NodeKey(a), NodeKey(b)) =>
      if KeyBytes(k) == KeyBytes(k') { SameNode(a, b); }
    case (NodeKey(a), _) => NodeAgainst(a, k');
    case (_, NodeKey(a)) => NodeAgainst(a, k);
    case (SlotKey(i), SlotKey(j)) =>
      if KeyBytes(k) == KeyBytes(k') { SameSlot(i, j); }
    case (NodeIndexKey, SlotKey(i)) => IndexIsNoSlot(i);
    case (SlotKey(i), NodeIndexKey) => IndexIsNoSlot(i);
    case (NodeIndexKey, NodeIndexKey) =>
  }

  lemma SameNode(a: Text, b: Text)
    requires KeyBytes(NodeKey(a)) == KeyBytes(NodeKey(b))
    ensures a == b
  {
    SameHead(NodeKey(a), NodeKey(b));
  }

  lemma SameSlot(i: u64, j: u64)
    requires KeyBytes(SlotKey(i)) == KeyBytes(SlotKey(j))
    ensures i == j
  {
    SameHead(SlotKey(i), SlotKey(j));
    DecimalInjective(i, j);
  }

  /** Addresses whose node key is no other key. Real addresses start with `A` and are clear. */
  ghost predicate ClearName(a: Text) {
    a.utf8 != Ascii("index") && forall i: u64 :: a.utf8 != Ascii("idx_") + Decimal(i)
  }

  ghost predicate Clear(k: Key) {
    k.NodeKey? ==> ClearName(k.address)
  }

  lemma AddressesAreClear(a: Text)
    requires |a.utf8| > 0 && a.utf8[0] == 'A' as int
    ensures ClearName(a)
  {
    assert Ascii("index")[0] == 'i' as int;
    forall i: u64
      ensures a.utf8 != Ascii("idx_") + Decimal(i)
    {
      assert (Ascii("idx_") + Decimal(i))[0] == 'i' as int;
    }
  }

  /** On clear keys the byte form is injective. */
  lemma ClearKeysDiffer(k: Key, k': Key)
    requires Clear(k) && Clear(k') && k != k'
    ensures KeyBytes(k) != KeyBytes(k')
  {
    hide KeyBytes;
    KeysCoincide(k, k');
  }
}
