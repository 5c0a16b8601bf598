/** Addresses that spell the rest of another `node_` key: what the contract takes for a node under such a
    name, and how its calls then depart from the typed contract. */
module Aliases {
  import opened Words
  import opened Records
  import opened Registry
  import opened Wire
  import opened Layouts
  import opened Keys
  import opened FlatStore
  import opened Ledger
  import opened Runs

  /** The node key of `a` is the key of the node index, or of a slot, and that key is present. */
  ghost predicate Aliased(s: State, a: Text) {
    || (a.utf8 == Ascii("index") && s.nodeIndex != [])
    || (exists i: u64 :: i in s.slots && a.utf8 == Ascii("idx_") + Decimal(i))
  }

  ghost predicate NoneAliased(s: State, addresses: seq<Text>) {
    forall i :: 0 <= i < |addresses| ==> !Aliased(s, addresses[i])
  }

  /** The address that is read there: the content of the index when it is a text, and otherwise nothing. */
  ghost function AliasAddress(s: State, a: Text): Text {
    if a.utf8 == Ascii("index") && ValidUtf8(Content(s.nodeIndex)) then Text(Content(s.nodeIndex)) else EMPTY
  }

  /** What the contract finds under an address: the node, or a blank node made of other data. */
  ghost function NodeFound(s: State, a: Text): Option<Node> {
    if a in s.nodes then Some(s.nodes[a])
    else if Aliased(s, a) then Some(NewNode(AliasAddress(s, a), 0, 0))
    else None
  }

  /** The same, on the datastore: whatever the bytes under the node key are, they are read into a new node. */
  ghost function NodeRead(e: Entries, a: Text): Option<Node> {
    var value := Lookup(e, KeyBytes(NodeKey(a)));
    if value.None? then None
    else Some(NodeWith(NewNode(EMPTY, 0, 0), ReadAll(NODE_LAYOUT, value.value, 0).got))
  }

  lemma ClearIsNotAliased(s: State, a: Text)
    requires ClearName(a)
    ensures !Aliased(s, a)
  {
  }

  // ---- What is read under an alias ----

  /** A buffer whose first field cannot be read leaves the new node as it is. */
  lemma NothingRead(data: Bytes)
    requires NextText(data, 0).result.Err?
    ensures NodeWith(NewNode(EMPTY, 0, 0), ReadAll(NODE_LAYOUT, data, 0).got) == NewNode(EMPTY, 0, 0)
  {
    hide NextText;
    assert ReadUpTo(NODE_LAYOUT, data, 0, 0) == Progress([], Restored(0));
    assert ReadUpTo(NODE_LAYOUT, data, 0, 1) == Progress([], Failed(0));
    FailureIsFinal(NODE_LAYOUT, data, 0, 1, |NODE_LAYOUT|);
    NodeWithNothing(NewNode(EMPTY, 0, 0));
  }

  /** A buffer that holds one text and nothing else gives the new node that address. */
  lemma OneTextRead(data: Bytes, t: Text)
    requires NextText(data, 0) == Read(Ok(t), |data|)
    ensures NodeWith(NewNode(EMPTY, 0, 0), ReadAll(NODE_LAYOUT, data, 0).got) == NewNode(t, 0, 0)
  {
    hide NextText;
    assert ReadUpTo(NODE_LAYOUT, data, 0, 0) == Progress([], Restored(0));
    assert ReadUpTo(NODE_LAYOUT, data, 0, 1) == Progress([] + [TextField(t)], Restored(|data|));
    assert NextU64(data, |data|).result.Err?;
    assert ReadUpTo(NODE_LAYOUT, data, 0, 2) == Progress([] + [TextField(t)], Failed(1));
    FailureIsFinal(NODE_LAYOUT, data, 0, 2, |NODE_LAYOUT|);
    NodeWithNext(NewNode(EMPTY, 0, 0), [], TextField(t));
    NodeWithNothing(NewNode(EMPTY, 0, 0));
  }

  lemma IndexRead(xs: seq<Text>)
    requires EncodableList(xs)
    ensures var t := if ValidUtf8(Content(xs)) then Text(Content(xs)) else EMPTY;
      NodeWith(NewNode(EMPTY, 0, 0), ReadAll(NODE_LAYOUT, EncodeTexts(xs), 0).got) == NewNode(t, 0, 0)
  {
    var c := Content(xs);
    BytesAt(c, [], []);
    assert [] + EncodeBytes(c) + [] == EncodeTexts(xs);
    hide NextBytes, ValidUtf8, Content, EncodeBytes;
    if ValidUtf8(c) {
      OneTextRead(EncodeTexts(xs), Text(c));
    } else {
      NothingRead(EncodeTexts(xs));
    }
  }

  lemma FourthByte(b: Bytes)
    requires |b| == 4
    ensures FromLittleEndian(b) >= (b[3] as int) * 0x100_0000
  {
    var low := b[3] as int;
    assert b[1..][1..][1..] == [b[3]];
    assert FromLittleEndian([b[3]]) == low + 256 * FromLittleEndian([b[3]][1..]) == low;
    assert FromLittleEndian(b[1..][1..]) >= 256 * low;
    assert FromLittleEndian(b[1..]) >= 0x1_0000 * low;
  }

  lemma PrefixIsSmall(n: u32)
    ensures n >= (EncodeU32(n)[3] as int) * 0x100_0000
  {
    WordSizes();
    NumberRoundTrip(n, 4);
    FourthByte(EncodeU32(n));
  }

  /** An encoded list begins with the length of its first text. */
  lemma ContentIsLong(xs: seq<Text>)
    requires xs != [] && EncodableList(xs)
    ensures var c := Content(xs); |c| >= 4 && |c| >= (c[3] as int) * 0x100_0000
  {
    hide Content, LittleEndian;
    var t := xs[0];
    assert Encodable(t);
    assert xs == [t] + xs[1..];
    ContentFront(t, xs[1..]);
    PrefixIsSmall(|t.utf8|);
    assert EncodeText(t)[3] == EncodeU32(|t.utf8|)[3];
  }

  /** The names under which other keys can be spelled are short, and have a letter in fourth place. */
  lemma AliasesAreShort()
    ensures |Ascii("index")| == 5 && Ascii("index")[3] > 0
    ensures forall i: u64 :: |Ascii("idx_") + Decimal(i)| <= 24 && (Ascii("idx_") + Decimal(i))[3] > 0
  {
    forall i: u64
      ensures |Ascii("idx_") + Decimal(i)| <= 24 && (Ascii("idx_") + Decimal(i))[3] > 0
    {
      DecimalIsShort(i);
      assert (Ascii("idx_") + Decimal(i))[3] == Ascii("idx_")[3] == '_' as int;
    }
  }

  lemma ContentIsClear(xs: seq<Text>)
    requires xs != [] && EncodableList(xs)
    ensures ClearName(Text(Content(xs)))
  {
    ContentIsLong(xs);
    AliasesAreShort();
    hide Content;
  }

  function Pow10(n: nat): nat {
    if n == 0 then 1 else 10 * Pow10(n - 1)
  }

  lemma {:induction false} DecimalLength(n: nat, k: nat)
    requires k > 0 && n < Pow10(k)
    ensures |Decimal(n)| <= k
  {
    if n >= 10 {
      assert k > 1;
      DecimalLength(n / 10, k - 1);
    }
  }

  lemma DecimalIsShort(i: u64)
    ensures |Decimal(i)| <= 20
  {
    assert Pow10(5) == 10 * (10 * (10 * (10 * (10 * Pow10(0))))) == 100_000;
    assert Pow10(10) == 10 * (10 * (10 * (10 * (10 * Pow10(5))))) == 10_000_000_000;
    assert Pow10(15) == 10 * (10 * (10 * (10 * (10 * Pow10(10))))) == 1_000_000_000_000_000;
    assert Pow10(20) == 10 * (10 * (10 * (10 * (10 * Pow10(15))))) == 100_000_000_000_000_000_000;
    DecimalLength(i, 20);
  }

  /** Addresses of the chain, being short and printable, cannot be read as a length-prefixed text. */
  lemma AddressesAreUnreadable(a: Text)
    requires |a.utf8| < 0x100_0000 && (|a.utf8| >= 4 ==> a.utf8[3] > 0)
    ensures Unreadable(a)
  {
    if |a.utf8| >= 4 {
      FourthByte(a.utf8[0..4]);
    }
  }

  /** On a datastore that represents a typed state, for any address whatsoever: the contract finds the node, or
      a blank node under an alias, or nothing. */
  lemma ReadIsFound(e: Entries, s: State, a: Text)
    requires Good(e, s)
    ensures NodeRead(e, a) == NodeFound(s, a)
    ensures NodeFound(s, a).Some? ==> NodeStorable(NodeFound(s, a).value.address, NodeFound(s, a).value)
  {
    hide ReadAll, EncodeNode, KeyBytes, NextText;
    if ClearName(a) {
      ClearIsNotAliased(s, a);
      assert Lookup(e, KeyBytes(NodeKey(a))) == Stored(s, NodeKey(a));
      if a in s.nodes {
        NodeReads(s.nodes[a], NewNode(EMPTY, 0, 0));
      }
    } else if a.utf8 == Ascii("index") {
      KeysCoincide(NodeKey(a), NodeIndexKey);
      assert Lookup(e, KeyBytes(NodeIndexKey)) == Stored(s, NodeIndexKey);
      IndexIsNoSlotName();
      if s.nodeIndex != [] {
        IndexRead(s.nodeIndex);
        AliasIsStorable(s, a);
      }
    } else {
      var i: u64 :| a.utf8 == Ascii("idx_") + Decimal(i);
      KeysCoincide(NodeKey(a), SlotKey(i));
      assert Lookup(e, KeyBytes(SlotKey(i))) == Stored(s, SlotKey(i));
      SlotNames(s, a, i);
      if i in s.slots {
        NothingRead(s.slots[i].utf8);
        AliasIsStorable(s, a);
      }
    }
  }

  lemma IndexIsNoSlotName()
    ensures forall i: u64 :: Ascii("index") != Ascii("idx_") + Decimal(i)
  {
    forall i: u64
      ensures Ascii("index") != Ascii("idx_") + Decimal(i)
    {
      assert Ascii("index")[2] == 'd' as int;
      assert (Ascii("idx_") + Decimal(i))[2] == Ascii("idx_")[2] == 'x' as int;
    }
  }

  lemma SlotNames(s: State, a: Text, i: u64)
    requires a.utf8 == Ascii("idx_") + Decimal(i)
    ensures Aliased(s, a) <==> i in s.slots
    ensures a.utf8 != Ascii("index")
  {
    IndexIsNoSlotName();
    forall j: u64 | a.utf8 == Ascii("idx_") + Decimal(j)
      ensures j == i
    {
      assert a.utf8[4..] == Decimal(i) == Decimal(j);
      DecimalInjective(i, j);
    }
  }

  lemma AliasIsStorable(s: State, a: Text)
    requires EncodableList(s.nodeIndex) && Aliased(s, a)
    ensures ClearName(AliasAddress(s, a)) && Encodable(AliasAddress(s, a))
  {
    assert Ascii("index") != [] && forall i: u64 :: Ascii("idx_") + Decimal(i) != [];
    if a.utf8 == Ascii("index") && ValidUtf8(Content(s.nodeIndex)) {
      IndexIsNoSlotName();
      ContentIsClear(s.nodeIndex);
    }
  }

  // ---- The contract on its datastore, for any names ----

  /** A challenge for an alias is issued: it names nobody, and a blank node with one challenge is stored. */
  ghost function OnFlatIssue(s: State, env: Env, id: Text, a: Text, chunkId: Text, nonce: u64): Outcome {
    var o := OnIssueChallenge(s, env, id, a, chunkId, nonce);
    if o == Reverted(NodeNotRegistered) && Aliased(s, a) then
      var alias, stats := NewNode(AliasAddress(s, a), 0, 0), s.Stats(env.period);
      var deadline := Wrap(env.now + s.config.challengeResponseTimeout);
      Done(s.(challenges := s.challenges[id := Challenge(id, a, chunkId, nonce, env.period, deadline, false, false)],
              nodes := s.nodes[alias.address := alias.(totalChallenges := 1, lastChallengedPeriod := env.period)],
              periods := s.periods[env.period := stats.(challengesIssued := Wrap(stats.challengesIssued + 1))]), 0)
    else o
  }

  /** A blank node was never challenged: listing one blocks every distribution but that of the sentinel period. */
  ghost function OnFlatDistribute(s: State, env: Env, period: u64, addresses: seq<Text>): Outcome {
    var o := OnDistributeRewards(s, env, period, addresses);
    if o.Done? && period != MAX64 && !NoneAliased(s, addresses)
    then Reverted(ProviderNotChallenged) else o
  }

  ghost function FlatStep(s: State, env: Env, balance: nat, op: Op): Outcome {
    match op
    case IssueChallenge(id, a, chunkId, nonce) => OnFlatIssue(s, env, id, a, chunkId, nonce)
    case DistributeRewards(period, addresses) => OnFlatDistribute(s, env, period, addresses)
    case _ => Step(s, env, balance, op)
  }

  /** The call names an alias where it matters. */
  ghost predicate Strays(s: State, env: Env, op: Op) {
    match op
    case IssueChallenge(id, a, _, _) =>
      && !s.Paused() && s.MayChallenge(env.caller)
      && id !in s.challenges && a !in s.nodes && Aliased(s, a)
    case DistributeRewards(period, addresses) =>
      && !s.Paused() && s.MayChallenge(env.caller)
      && !s.Stats(period).rewardsDistributed && AllChallenged(s.nodes, period, addresses)
      && period != MAX64 && !NoneAliased(s, addresses)
    case _ => false
  }

  /** The datastore departs from the typed contract exactly when a call strays: a challenge that the typed
      contract refuses is issued and leaves the ledger, and a distribution that it accepts is refused. */
  lemma DepartsIffStrays(s: State, env: Env, b: nat, op: Op)
    requires EncodableList(s.nodeIndex)
    ensures FlatStep(s, env, b, op) != Step(s, env, b, op) <==> Strays(s, env, op)
    ensures Strays(s, env, op) && op.IssueChallenge? ==>
      var r := FlatStep(s, env, b, op); r.Done? && op.id in r.next.challenges && !WellLinked(r.next)
    ensures Strays(s, env, op) && op.DistributeRewards? ==>
      FlatStep(s, env, b, op) == Reverted(ProviderNotChallenged)
  {
    hide Wrap;
    if Strays(s, env, op) && op.IssueChallenge? {
      var a, s' := op.nodeAddress, FlatStep(s, env, b, op).next;
      AliasIsStorable(s, a);
      if ClearName(a) {
        ClearIsNotAliased(s, a);
      }
      assert s'.challenges[op.id].nodeAddress == a && a !in s'.nodes;
    }
  }

  /** Such calls exist as soon as one provider has registered: a challenge for the name of its slot. */
  lemma SlotNameStrays(admin: Text, a: Text, id: Text, chunkId: Text, nonce: u64)
    ensures var w := Advance(Genesis(admin, None),
                             Invoke(Env(a, 0, 0, 0), Op.RegisterStorageNode(1, EMPTY, [])));
      var name := Text(Ascii("idx_") + Decimal(0));
      a != name ==> Strays(w.s, Env(admin, 0, 0, 0), Op.IssueChallenge(id, name, chunkId, nonce))
  {
    var w := Advance(Genesis(admin, None),
                     Invoke(Env(a, 0, 0, 0), Op.RegisterStorageNode(1, EMPTY, [])));
    hide Ascii, Decimal;
    assert w.s.slots == map[0 := a];
    assert 0 in w.s.slots;
  }

  /** Every name in the call is clear. */
  ghost predicate NamesClear(op: Op) {
    match op
    case IssueChallenge(_, a, _, _) => ClearName(a)
    case DistributeRewards(_, addresses) => forall a :: a in addresses ==> ClearName(a)
    case _ => true
  }

  lemma ClearDoesNotStray(s: State, env: Env, b: nat, op: Op)
    requires NamesClear(op)
    ensures FlatStep(s, env, b, op) == Step(s, env, b, op)
  {
    match op
    case IssueChallenge(_, a, _, _) => ClearIsNotAliased(s, a);
    case DistributeRewards(_, addresses) =>
      forall i | 0 <= i < |addresses|
        ensures !Aliased(s, addresses[i])
      {
        ClearIsNotAliased(s, addresses[i]);
      }
    case _ =>
  }

  // ---- Runs on the datastore ----

  /** The caller's address, as the chain supplies it; see `AddressesAreClear` and `AddressesAreUnreadable`. */
  ghost predicate Admissible(env: Env) {
    env.caller != EMPTY && Encodable(env.caller) && ClearName(env.caller) && Unreadable(env.caller)
  }


  /** What a call must bring along for its records to fit the datastore: a caller's address of the chain, and
      texts and lists that fit their length prefixes. The names in its arguments are arbitrary. */
  ghost predicate Manageable(s: State, env: Env, op: Op) {
    match op
    case RegisterStorageNode(_, _, _) => Admissible(env) && ListStorable(s.nodeIndex + [env.caller])
    case UpdateStorageAllocation(_) => Admissible(env)
    case UnregisterStorageNode => Admissible(env)
    case SubmitProof(_, _) => Admissible(env)
    case ClaimRewards => Admissible(env)
    case UpdateProviderMetadata(_, _) => Admissible(env)
    case IssueChallenge(id, a, chunkId, _) => Encodable(id) && Encodable(a) && Encodable(chunkId)
    case RegisterAsUploader(_) => ListStorable(s.uploaderIndex + [env.caller])
    case _ => true
  }

  ghost function FlatAttempt(w: World, env: Env, op: Op): Outcome {
    FlatStep(w.s, env, w.balance + env.coins, op)
  }

  lemma FlatPaidIsCovered(w: World, env: Env, op: Op)
    ensures var r := FlatAttempt(w, env, op); r.Done? ==> r.paid <= w.balance + env.coins
  {
    PaidIsCovered(w, env, op);
  }

  ghost function FlatAdvance(w: World, ev: Event): World {
    match ev
    case CoinsArrive(amount) => w.(balance := w.balance + amount, received := w.received + amount)
    case Invoke(env, op) =>
      match FlatAttempt(w, env, op)
      case Reverted(_) => w
      case Done(s, paid) =>
        FlatPaidIsCovered(w, env, op);
        World(s, w.balance + env.coins - paid, w.received + env.coins, w.claimed + paid)
  }

  ghost function FlatRun(w: World, evs: seq<Event>): World {
    if evs == [] then w else FlatAdvance(FlatRun(w, evs[..|evs| - 1]), evs[|evs| - 1])
  }

  /** Every call of the run can be made on the datastore. */
  ghost predicate ManageableRun(w: World, evs: seq<Event>) {
    forall i :: 0 <= i < |evs| && evs[i].Invoke? ==> Manageable(FlatRun(w, evs[..i]).s, evs[i].env, evs[i].op)
  }

  /** As long as the names in the calls are clear, runs on the datastore are runs of the typed contract. */
  lemma {:induction false} ClearRunsAgree(w: World, evs: seq<Event>)
    requires forall i :: 0 <= i < |evs| && evs[i].Invoke? ==> NamesClear(evs[i].op)
    ensures FlatRun(w, evs) == Run(w, evs)
  {
    if evs != [] {
      var n := |evs| - 1;
      ClearRunsAgree(w, evs[..n]);
      var v := Run(w, evs[..n]);
      if evs[n].Invoke? {
        ClearDoesNotStray(v.s, evs[n].env, v.balance + evs[n].env.coins, evs[n].op);
      }
      hide Step, FlatStep;
    }
  }
}
