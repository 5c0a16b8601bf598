/** The four serializable structs as layouts: a layout lists the fields in wire order. One round trip
    over layouts gives the round trip of every struct. */
module Layouts {
  import opened Words
  import opened Records
  import opened Wire

  datatype Kind = TextKind | NumberKind | FlagKind

  type Layout = seq<Kind>

  datatype Field = TextField(text: Text) | NumberField(number: u64) | FlagField(flag: bool)
  {
    function Kind(): Kind {
      match this
      case TextField(_) => TextKind
      case NumberField(_) => NumberKind
      case FlagField(_) => FlagKind
    }

    predicate Encodes() {
      TextField? ==> Encodable(text)
    }
  }

  function EncodeField(f: Field): Bytes {
    match f
    case TextField(t) => EncodeText(t)
    case NumberField(n) => EncodeU64(n)
    case FlagField(b) => EncodeBool(b)
  }

  function EncodeFields(fs: seq<Field>): Bytes {
    if fs == [] then [] else EncodeFields(fs[..|fs| - 1]) + EncodeField(fs[|fs| - 1])
  }

  function NextField(kind: Kind, data: Bytes, offset: nat): Read<Field> {
    match kind
    case TextKind =>
      var r := NextText(data, offset);
      if r.result.Ok? then Read(Ok(TextField(r.result.value)), r.offset) else Read(Err(r.result.error), r.offset)
    case NumberKind =>
      var r := NextU64(data, offset);
      if r.result.Ok? then Read(Ok(NumberField(r.result.value)), r.offset) else Read(Err(r.result.error), r.offset)
    case FlagKind =>
      var r := NextBool(data, offset);
      if r.result.Ok? then Read(Ok(FlagField(r.result.value)), r.offset) else Read(Err(r.result.error), r.offset)
  }

  /** The offset behind the struct, or the number of the field that could not be read. */
  datatype Status = Restored(offset: nat) | Failed(field: nat)

  /** The fields read so far, in order, and how the reading stands. */
  datatype Progress = Progress(got: seq<Field>, status: Status)

  /** Reading the first `n` fields of a layout; after a failure nothing more is read. */
  function ReadUpTo(layout: Layout, data: Bytes, offset: nat, n: nat): (p: Progress)
    requires n <= |layout|
    ensures p.status.Restored? ==> |p.got| == n
  {
    if n == 0 then Progress([], Restored(offset))
    else
      var p := ReadUpTo(layout, data, offset, n - 1);
      if p.status.Failed? then p
      else
        var r := NextField(layout[n - 1], data, p.status.offset);
        if r.result.Err? then Progress(p.got, Failed(n - 1))
        else Progress(p.got + [r.result.value], Restored(r.offset))
  }

  function ReadAll(layout: Layout, data: Bytes, offset: nat): Progress {
    ReadUpTo(layout, data, offset, |layout|)
  }

  /** A failure is final. */
  lemma {:induction false} FailureIsFinal(layout: Layout, data: Bytes, offset: nat, n: nat, m: nat)
    requires n <= m <= |layout|
    requires ReadUpTo(layout, data, offset, n).status.Failed?
    ensures ReadUpTo(layout, data, offset, m) == ReadUpTo(layout, data, offset, n)
  {
    if n < m {
      FailureIsFinal(layout, data, offset, n, m - 1);
    }
  }

  ghost predicate Fits(fs: seq<Field>, layout: Layout) {
    |fs| == |layout| && forall i :: 0 <= i < |fs| ==> fs[i].Kind() == layout[i] && fs[i].Encodes()
  }

  lemma FieldAt(f: Field, pre: Bytes, suf: Bytes)
    requires f.Encodes()
    ensures NextField(f.Kind(), pre + EncodeField(f) + suf, |pre|) == Read(Ok(f), |pre| + |EncodeField(f)|)
  {
    match f
    case TextField(t) => TextAt(t, pre, suf);
    case NumberField(n) => U64At(n, pre, suf);
    case FlagField(b) => BoolAt(b, pre, suf);
  }

  lemma {:induction false} FieldsAppend(fs: seq<Field>, gs: seq<Field>)
    ensures EncodeFields(fs + gs) == EncodeFields(fs) + EncodeFields(gs)
  {
    hide EncodeField;
    if gs == [] {
      assert fs + gs == fs;
    } else {
      FieldsAppend(fs, gs[..|gs| - 1]);
      assert (fs + gs)[..|fs + gs| - 1] == fs + gs[..|gs| - 1];
    }
  }

  lemma EncodeNothing()
    ensures forall fs: seq<Field> :: EncodeFields(fs[..0]) == []
  {
  }

  lemma EncodeNext(fs: seq<Field>, i: nat)
    requires i < |fs|
    ensures EncodeFields(fs[..i + 1]) == EncodeFields(fs[..i]) + EncodeField(fs[i])
  {
    assert fs[..i + 1][..i] == fs[..i];
  }

  lemma FourParts(pre: Bytes, a: Bytes, f: Bytes, b: Bytes, suf: Bytes)
    ensures pre + ((a + f) + b) + suf == (pre + a) + f + (b + suf)
  {
  }

  lemma SplitAt(fs: seq<Field>, i: nat, pre: Bytes, suf: Bytes)
    requires i < |fs|
    ensures pre + EncodeFields(fs) + suf ==
            (pre + EncodeFields(fs[..i])) + EncodeField(fs[i]) + (EncodeFields(fs[i + 1..]) + suf)
  {
    hide EncodeField;
    hide EncodeFields;
    var front, rest := fs[..i + 1], fs[i + 1..];
    EncodeNext(fs, i);
    FieldsAppend(front, rest);
    assert fs == front + rest;
    assert EncodeFields(fs) == (EncodeFields(fs[..i]) + EncodeField(fs[i])) + EncodeFields(rest);
    FourParts(pre, EncodeFields(fs[..i]), EncodeField(fs[i]), EncodeFields(rest), suf);
  }

  /** Reading an encoded struct, wherever it stands in a buffer, restores its fields one by one. */
  lemma {:induction false} FieldsAt(layout: Layout, fs: seq<Field>, pre: Bytes, suf: Bytes, n: nat)
    requires Fits(fs, layout) && n <= |fs|
    ensures ReadUpTo(layout, pre + EncodeFields(fs) + suf, |pre|, n)
            == Progress(fs[..n], Restored(|pre| + |EncodeFields(fs[..n])|))
  {
    hide NextField, EncodeField, EncodeFields;
    if n == 0 {
      EncodeNothing();
    } else {
      var i := n - 1;
      FieldsAt(layout, fs, pre, suf, i);
      EncodeNext(fs, i);
      SplitAt(fs, i, pre, suf);
      FieldAt(fs[i], pre + EncodeFields(fs[..i]), EncodeFields(fs[i + 1..]) + suf);
      assert fs[..n] == fs[..i] + [fs[i]];
    }
  }

  lemma AllFieldsAt(layout: Layout, fs: seq<Field>, pre: Bytes, suf: Bytes)
    requires Fits(fs, layout)
    ensures ReadAll(layout, pre + EncodeFields(fs) + suf, |pre|)
            == Progress(fs, Restored(|pre| + |EncodeFields(fs)|))
  {
    FieldsAt(layout, fs, pre, suf, |fs|);
    assert fs[..|fs|] == fs;
  }

  // ---- The four structs ----

  const NODE_LAYOUT: Layout :=
    [TextKind, NumberKind, NumberKind, NumberKind, NumberKind, NumberKind, NumberKind, NumberKind, FlagKind]

  function NodeFields(n: Node): seq<Field> {
    [TextField(n.address), NumberField(n.allocatedGb), NumberField(n.registeredPeriod),
     NumberField(n.totalChallenges), NumberField(n.passedChallenges), NumberField(n.pendingRewards),
     NumberField(n.lastChallengedPeriod), NumberField(n.lastRewardedPeriod), FlagField(n.active)]
  }

  /** `n` after its field number `i` was assigned from `f`. */
  function NodeSet(n: Node, i: nat, f: Field): Node {
    if i == 0 && f.TextField? then n.(address := f.text)
    else if i == 1 && f.NumberField? then n.(allocatedGb := f.number)
    else if i == 2 && f.NumberField? then n.(registeredPeriod := f.number)
    else if i == 3 && f.NumberField? then n.(totalChallenges := f.number)
    else if i == 4 && f.NumberField? then n.(passedChallenges := f.number)
    else if i == 5 && f.NumberField? then n.(pendingRewards := f.number)
    else if i == 6 && f.NumberField? then n.(lastChallengedPeriod := f.number)
    else if i == 7 && f.NumberField? then n.(lastRewardedPeriod := f.number)
    else if i == 8 && f.FlagField? then n.(active := f.flag)
    else n
  }

  /** `n` after the fields in `got` were assigned to it, in order. */
  function NodeWith(n: Node, got: seq<Field>): Node {
    if got == [] then n else NodeSet(NodeWith(n, got[..|got| - 1]), |got| - 1, got[|got| - 1])
  }

  lemma NodeWithNothing(n: Node)
    ensures NodeWith(n, []) == n
  {
  }

  lemma NodeWithNext(n: Node, got: seq<Field>, f: Field)
    ensures NodeWith(n, got + [f]) == NodeSet(NodeWith(n, got), |got|, f)
  {
    assert (got + [f])[..|got|] == got;
  }

  lemma NodeAssign(n: Node, got: seq<Field>, i: nat, now: Node, f: Field, next: Node)
    requires now == NodeWith(n, got) && |got| == i && next == NodeSet(now, i, f)
    ensures next == NodeWith(n, got + [f])
  {
    NodeWithNext(n, got, f);
  }

  lemma NodeSetKeeps(n: Node, i: nat, f: Field)
    requires i < |NODE_LAYOUT| && f.Kind() == NODE_LAYOUT[i]
    ensures |NodeFields(n)| == |NODE_LAYOUT|
    ensures NodeFields(NodeSet(n, i, f)) == NodeFields(n)[i := f]
  {
  }

  /** Assigned fields keep the values they were given. */
  lemma {:induction false} NodeKeeps(n: Node, got: seq<Field>)
    requires |got| <= |NODE_LAYOUT| && forall i :: 0 <= i < |got| ==> got[i].Kind() == NODE_LAYOUT[i]
    ensures forall i :: 0 <= i < |got| ==> NodeFields(NodeWith(n, got))[i] == got[i]
  {
    hide NodeFields, NodeSet;
    if got != [] {
      var i := |got| - 1;
      NodeKeeps(n, got[..i]);
      NodeSetKeeps(NodeWith(n, got[..i]), i, got[i]);
    }
  }

  const CHALLENGE_LAYOUT: Layout :=
    [TextKind, TextKind, TextKind, NumberKind, NumberKind, NumberKind, FlagKind, FlagKind]

  function ChallengeFields(c: Challenge): seq<Field> {
    [TextField(c.id), TextField(c.nodeAddress), TextField(c.chunkId), NumberField(c.nonce),
     NumberField(c.issuedPeriod), NumberField(c.deadline), FlagField(c.resolved), FlagField(c.passed)]
  }

  /** `c` after its field number `i` was assigned from `f`. */
  function ChallengeSet(c: Challenge, i: nat, f: Field): Challenge {
    if i == 0 && f.TextField? then c.(id := f.text)
    else if i == 1 && f.TextField? then c.(nodeAddress := f.text)
    else if i == 2 && f.TextField? then c.(chunkId := f.text)
    else if i == 3 && f.NumberField? then c.(nonce := f.number)
    else if i == 4 && f.NumberField? then c.(issuedPeriod := f.number)
    else if i == 5 && f.NumberField? then c.(deadline := f.number)
    else if i == 6 && f.FlagField? then c.(resolved := f.flag)
    else if i == 7 && f.FlagField? then c.(passed := f.flag)
    else c
  }

  /** `c` after the fields in `got` were assigned to it, in order. */
  function ChallengeWith(c: Challenge, got: seq<Field>): Challenge {
    if got == [] then c else ChallengeSet(ChallengeWith(c, got[..|got| - 1]), |got| - 1, got[|got| - 1])
  }

  lemma ChallengeWithNothing(c: Challenge)
    ensures ChallengeWith(c, []) == c
  {
  }

  lemma ChallengeWithNext(c: Challenge, got: seq<Field>, f: Field)
    ensures ChallengeWith(c, got + [f]) == ChallengeSet(ChallengeWith(c, got), |got|, f)
  {
    assert (got + [f])[..|got|] == got;
  }

  lemma ChallengeAssign(c: Challenge, got: seq<Field>, i: nat, now: Challenge, f: Field, next: Challenge)
    requires now == ChallengeWith(c, got) && |got| == i && next == ChallengeSet(now, i, f)
    ensures next == ChallengeWith(c, got + [f])
  {
    ChallengeWithNext(c, got, f);
  }

  lemma ChallengeSetKeeps(c: Challenge, i: nat, f: Field)
    requires i < |CHALLENGE_LAYOUT| && f.Kind() == CHALLENGE_LAYOUT[i]
    ensures |ChallengeFields(c)| == |CHALLENGE_LAYOUT|
    ensures ChallengeFields(ChallengeSet(c, i, f)) == ChallengeFields(c)[i := f]
  {
  }

  /** Assigned fields keep the values they were given. */
  lemma {:induction false} ChallengeKeeps(c: Challenge, got: seq<Field>)
    requires |got| <= |CHALLENGE_LAYOUT| && forall i :: 0 <= i < |got| ==> got[i].Kind() == CHALLENGE_LAYOUT[i]
    ensures forall i :: 0 <= i < |got| ==> ChallengeFields(ChallengeWith(c, got))[i] == got[i]
  {
    hide ChallengeFields, ChallengeSet;
    if got != [] {
      var i := |got| - 1;
      ChallengeKeeps(c, got[..i]);
      ChallengeSetKeeps(ChallengeWith(c, got[..i]), i, got[i]);
    }
  }

  const STATS_LAYOUT: Layout :=
    [NumberKind, NumberKind, NumberKind, NumberKind, NumberKind, NumberKind, FlagKind]

  function StatsFields(p: PeriodStats): seq<Field> {
    [NumberField(p.period), NumberField(p.totalGbStored), NumberField(p.totalRewardsDistributed),
     NumberField(p.activeNodes), NumberField(p.challengesIssued), NumberField(p.challengesPassed),
     FlagField(p.rewardsDistributed)]
  }

  /** `p` after its field number `i` was assigned from `f`. */
  function StatsSet(p: PeriodStats, i: nat, f: Field): PeriodStats {
    if i == 0 && f.NumberField? then p.(period := f.number)
    else if i == 1 && f.NumberField? then p.(totalGbStored := f.number)
    else if i == 2 && f.NumberField? then p.(totalRewardsDistributed := f.number)
    else if i == 3 && f.NumberField? then p.(activeNodes := f.number)
    else if i == 4 && f.NumberField? then p.(challengesIssued := f.number)
    else if i == 5 && f.NumberField? then p.(challengesPassed := f.number)
    else if i == 6 && f.FlagField? then p.(rewardsDistributed := f.flag)
    else p
  }

  /** `p` after the fields in `got` were assigned to it, in order. */
  function StatsWith(p: PeriodStats, got: seq<Field>): PeriodStats {
    if got == [] then p else StatsSet(StatsWith(p, got[..|got| - 1]), |got| - 1, got[|got| - 1])
  }

  lemma StatsWithNothing(p: PeriodStats)
    ensures StatsWith(p, []) == p
  {
  }

  lemma StatsWithNext(p: PeriodStats, got: seq<Field>, f: Field)
    ensures StatsWith(p, got + [f]) == StatsSet(StatsWith(p, got), |got|, f)
  {
    assert (got + [f])[..|got|] == got;
  }

  lemma StatsAssign(p: PeriodStats, got: seq<Field>, i: nat, now: PeriodStats, f: Field, next: PeriodStats)
    requires now == StatsWith(p, got) && |got| == i && next == StatsSet(now, i, f)
    ensures next == StatsWith(p, got + [f])
  {
    StatsWithNext(p, got, f);
  }

  lemma StatsSetKeeps(p: PeriodStats, i: nat, f: Field)
    requires i < |STATS_LAYOUT| && f.Kind() == STATS_LAYOUT[i]
    ensures |StatsFields(p)| == |STATS_LAYOUT|
    ensures StatsFields(StatsSet(p, i, f)) == StatsFields(p)[i := f]
  {
  }

  /** Assigned fields keep the values they were given. */
  lemma {:induction false} StatsKeeps(p: PeriodStats, got: seq<Field>)
    requires |got| <= |STATS_LAYOUT| && forall i :: 0 <= i < |got| ==> got[i].Kind() == STATS_LAYOUT[i]
    ensures forall i :: 0 <= i < |got| ==> StatsFields(StatsWith(p, got))[i] == got[i]
  {
    hide StatsFields, StatsSet;
    if got != [] {
      var i := |got| - 1;
      StatsKeeps(p, got[..i]);
      StatsSetKeeps(StatsWith(p, got[..i]), i, got[i]);
    }
  }

  const CONFIG_LAYOUT: Layout :=
    [NumberKind, NumberKind, NumberKind, NumberKind, NumberKind]

  function ConfigFields(c: Config): seq<Field> {
    [NumberField(c.rewardPerGbPerPeriod), NumberField(c.minAllocatedGb), NumberField(c.maxAllocatedGb),
     NumberField(c.challengeResponseTimeout), NumberField(c.rewardDistributionPeriod)]
  }

  /** `c` after its field number `i` was assigned from `f`. */
  function ConfigSet(c: Config, i: nat, f: Field): Config {
    if i == 0 && f.NumberField? then c.(rewardPerGbPerPeriod := f.number)
    else if i == 1 && f.NumberField? then c.(minAllocatedGb := f.number)
    else if i == 2 && f.NumberField? then c.(maxAllocatedGb := f.number)
    else if i == 3 && f.NumberField? then c.(challengeResponseTimeout := f.number)
    else if i == 4 && f.NumberField? then c.(rewardDistributionPeriod := f.number)
    else c
  }

  /** `c` after the fields in `got` were assigned to it, in order. */
  function ConfigWith(c: Config, got: seq<Field>): Config {
    if got == [] then c else ConfigSet(ConfigWith(c, got[..|got| - 1]), |got| - 1, got[|got| - 1])
  }

  lemma ConfigWithNothing(c: Config)
    ensures ConfigWith(c, []) == c
  {
  }

  lemma ConfigWithNext(c: Config, got: seq<Field>, f: Field)
    ensures ConfigWith(c, got + [f]) == ConfigSet(ConfigWith(c, got), |got|, f)
  {
    assert (got + [f])[..|got|] == got;
  }

  lemma ConfigAssign(c: Config, got: seq<Field>, i: nat, now: Config, f: Field, next: Config)
    requires now == ConfigWith(c, got) && |got| == i && next == ConfigSet(now, i, f)
    ensures next == ConfigWith(c, got + [f])
  {
    ConfigWithNext(c, got, f);
  }

  lemma ConfigSetKeeps(c: Config, i: nat, f: Field)
    requires i < |CONFIG_LAYOUT| && f.Kind() == CONFIG_LAYOUT[i]
    ensures |ConfigFields(c)| == |CONFIG_LAYOUT|
    ensures ConfigFields(ConfigSet(c, i, f)) == ConfigFields(c)[i := f]
  {
  }

  /** Assigned fields keep the values they were given. */
  lemma {:induction false} ConfigKeeps(c: Config, got: seq<Field>)
    requires |got| <= |CONFIG_LAYOUT| && forall i :: 0 <= i < |got| ==> got[i].Kind() == CONFIG_LAYOUT[i]
    ensures forall i :: 0 <= i < |got| ==> ConfigFields(ConfigWith(c, got))[i] == got[i]
  {
    hide ConfigFields, ConfigSet;
    if got != [] {
      var i := |got| - 1;
      ConfigKeeps(c, got[..i]);
      ConfigSetKeeps(ConfigWith(c, got[..i]), i, got[i]);
    }
  }

  function EncodeNode(n: Node): Bytes { EncodeFields(NodeFields(n)) }

  function EncodeChallenge(c: Challenge): Bytes { EncodeFields(ChallengeFields(c)) }

  function EncodeStats(p: PeriodStats): Bytes { EncodeFields(StatsFields(p)) }

  function EncodeConfig(c: Config): Bytes { EncodeFields(ConfigFields(c)) }

  lemma NodeFieldsInjective(a: Node, b: Node)
    requires forall i :: 0 <= i < |NodeFields(b)| ==> NodeFields(a)[i] == NodeFields(b)[i]
    ensures a == b
  {
    assert NodeFields(a)[0] == NodeFields(b)[0];
    assert NodeFields(a)[1] == NodeFields(b)[1];
    assert NodeFields(a)[2] == NodeFields(b)[2];
    assert NodeFields(a)[3] == NodeFields(b)[3];
    assert NodeFields(a)[4] == NodeFields(b)[4];
    assert NodeFields(a)[5] == NodeFields(b)[5];
    assert NodeFields(a)[6] == NodeFields(b)[6];
    assert NodeFields(a)[7] == NodeFields(b)[7];
    assert NodeFields(a)[8] == NodeFields(b)[8];
  }

  /** Reading a serialized node inside any buffer restores every field, whatever the object held before,
      and returns the offset behind it. */
  lemma NodeRoundTrip(n: Node, before: Node, pre: Bytes, suf: Bytes)
    requires Encodable(n.address)
    ensures var p := ReadAll(NODE_LAYOUT, pre + EncodeNode(n) + suf, |pre|);
      NodeWith(before, p.got) == n && p.status == Restored(|pre| + |EncodeNode(n)|)
  {
    AllFieldsAt(NODE_LAYOUT, NodeFields(n), pre, suf);
    NodeKeeps(before, NodeFields(n));
    NodeFieldsInjective(NodeWith(before, NodeFields(n)), n);
  }

  lemma ChallengeFieldsInjective(a: Challenge, b: Challenge)
    requires forall i :: 0 <= i < |ChallengeFields(b)| ==> ChallengeFields(a)[i] == ChallengeFields(b)[i]
    ensures a == b
  {
    assert ChallengeFields(a)[0] == ChallengeFields(b)[0];
    assert ChallengeFields(a)[1] == ChallengeFields(b)[1];
    assert ChallengeFields(a)[2] == ChallengeFields(b)[2];
    assert ChallengeFields(a)[3] == ChallengeFields(b)[3];
    assert ChallengeFields(a)[4] == ChallengeFields(b)[4];
    assert ChallengeFields(a)[5] == ChallengeFields(b)[5];
    assert ChallengeFields(a)[6] == ChallengeFields(b)[6];
    assert ChallengeFields(a)[7] == ChallengeFields(b)[7];
  }

  lemma ChallengeRoundTrip(c: Challenge, before: Challenge, pre: Bytes, suf: Bytes)
    requires Encodable(c.id) && Encodable(c.nodeAddress) && Encodable(c.chunkId)
    ensures var p := ReadAll(CHALLENGE_LAYOUT, pre + EncodeChallenge(c) + suf, |pre|);
      ChallengeWith(before, p.got) == c && p.status == Restored(|pre| + |EncodeChallenge(c)|)
  {
    AllFieldsAt(CHALLENGE_LAYOUT, ChallengeFields(c), pre, suf);
    ChallengeKeeps(before, ChallengeFields(c));
    ChallengeFieldsInjective(ChallengeWith(before, ChallengeFields(c)), c);
  }

  lemma StatsFieldsInjective(a: PeriodStats, b: PeriodStats)
    requires forall i :: 0 <= i < |StatsFields(b)| ==> StatsFields(a)[i] == StatsFields(b)[i]
    ensures a == b
  {
    assert StatsFields(a)[0] == StatsFields(b)[0];
    assert StatsFields(a)[1] == StatsFields(b)[1];
    assert StatsFields(a)[2] == StatsFields(b)[2];
    assert StatsFields(a)[3] == StatsFields(b)[3];
    assert StatsFields(a)[4] == StatsFields(b)[4];
    assert StatsFields(a)[5] == StatsFields(b)[5];
    assert StatsFields(a)[6] == StatsFields(b)[6];
  }

  lemma StatsRoundTrip(s: PeriodStats, before: PeriodStats, pre: Bytes, suf: Bytes)
    ensures var p := ReadAll(STATS_LAYOUT, pre + EncodeStats(s) + suf, |pre|);
      StatsWith(before, p.got) == s && p.status == Restored(|pre| + |EncodeStats(s)|)
  {
    AllFieldsAt(STATS_LAYOUT, StatsFields(s), pre, suf);
    StatsKeeps(before, StatsFields(s));
    StatsFieldsInjective(StatsWith(before, StatsFields(s)), s);
  }

  lemma ConfigFieldsInjective(a: Config, b: Config)
    requires forall i :: 0 <= i < |ConfigFields(b)| ==> ConfigFields(a)[i] == ConfigFields(b)[i]
    ensures a == b
  {
    assert ConfigFields(a)[0] == ConfigFields(b)[0];
    assert ConfigFields(a)[1] == ConfigFields(b)[1];
    assert ConfigFields(a)[2] == ConfigFields(b)[2];
    assert ConfigFields(a)[3] == ConfigFields(b)[3];
    assert ConfigFields(a)[4] == ConfigFields(b)[4];
  }

  lemma ConfigRoundTrip(c: Config, before: Config, pre: Bytes, suf: Bytes)
    ensures var p := ReadAll(CONFIG_LAYOUT, pre + EncodeConfig(c) + suf, |pre|);
      ConfigWith(before, p.got) == c && p.status == Restored(|pre| + |EncodeConfig(c)|)
  {
    AllFieldsAt(CONFIG_LAYOUT, ConfigFields(c), pre, suf);
    ConfigKeeps(before, ConfigFields(c));
    ConfigFieldsInjective(ConfigWith(before, ConfigFields(c)), c);
  }

  /** Whatever the layout, different fields have different bytes, and no encoding is a proper prefix of
      another. */
  lemma EncodingIsPrefixFree(layout: Layout, fs: seq<Field>, gs: seq<Field>, suf: Bytes)
    requires Fits(fs, layout) && Fits(gs, layout)
    requires EncodeFields(fs) == EncodeFields(gs) + suf
    ensures fs == gs && suf == []
  {
    hide Fits, ReadAll, EncodeFields;
    AllFieldsAt(layout, fs, [], []);
    AllFieldsAt(layout, gs, [], suf);
    assert [] + EncodeFields(fs) + [] == [] + EncodeFields(gs) + suf;
  }

  /** So it is with serialized nodes, and with the other three structs below. */
  lemma NodesArePrefixFree(n: Node, m: Node, suf: Bytes)
    requires Encodable(n.address) && Encodable(m.address)
    requires EncodeNode(n) == EncodeNode(m) + suf
    ensures n == m && suf == []
  {
    hide EncodeFields;
    EncodingIsPrefixFree(NODE_LAYOUT, NodeFields(n), NodeFields(m), suf);
    NodeFieldsInjective(n, m);
  }

  lemma ChallengesArePrefixFree(c: Challenge, d: Challenge, suf: Bytes)
    requires Encodable(c.id) && Encodable(c.nodeAddress) && Encodable(c.chunkId)
    requires Encodable(d.id) && Encodable(d.nodeAddress) && Encodable(d.chunkId)
    requires EncodeChallenge(c) == EncodeChallenge(d) + suf
    ensures c == d && suf == []
  {
    hide EncodeFields;
    EncodingIsPrefixFree(CHALLENGE_LAYOUT, ChallengeFields(c), ChallengeFields(d), suf);
    ChallengeFieldsInjective(c, d);
  }

  lemma StatsArePrefixFree(s: PeriodStats, t: PeriodStats, suf: Bytes)
    requires EncodeStats(s) == EncodeStats(t) + suf
    ensures s == t && suf == []
  {
    hide EncodeFields;
    EncodingIsPrefixFree(STATS_LAYOUT, StatsFields(s), StatsFields(t), suf);
    StatsFieldsInjective(s, t);
  }

  lemma ConfigsArePrefixFree(c: Config, d: Config, suf: Bytes)
    requires EncodeConfig(c) == EncodeConfig(d) + suf
    ensures c == d && suf == []
  {
    hide EncodeFields;
    EncodingIsPrefixFree(CONFIG_LAYOUT, ConfigFields(c), ConfigFields(d), suf);
    ConfigFieldsInjective(c, d);
  }
}
