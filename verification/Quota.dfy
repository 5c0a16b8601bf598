/** The quota under concurrent uploads: each upload checks, then writes its data, then its sidecar, and
    the steps of different uploads interleave, since nothing locks the directory in between. */
module Quota {
  import opened Words
  import opened Sums
  import opened Blobs

  /** An upload that passed its check: what it still has to write. */
  datatype Upload =
    | Checked(ns: Name, id: Name, data: Bytes, meta: Bytes)
    | DataWritten(ns: Name, id: Name, meta: Bytes)

  /** The disk and the uploads between check and completion. */
  datatype Server = Server(disk: Disk, inFlight: map<nat, Upload>)

  datatype Action =
    | Check(u: nat, ns: Name, id: Name, data: Bytes, meta: Bytes)
    | WriteData(u: nat)
    | WriteMeta(u: nat)

  /** The sizes the server allows: at most `k` uploads at once, bodies and sidecars up to so many bytes. */
  datatype Bounds = Bounds(limit: u64, k: nat, maxBody: nat, maxSidecar: nat)

  predicate Allowed(s: Server, a: Action, q: Bounds) {
    match a
    case Check(u, ns, id, data, meta) =>
      && u !in s.inFlight && |s.inFlight| < q.k
      && CleanName(ns) && CleanName(id)
      && |data| <= q.maxBody && |meta| <= q.maxSidecar
    case WriteData(u) => u in s.inFlight && s.inFlight[u].Checked?
    case WriteMeta(u) => u in s.inFlight && s.inFlight[u].DataWritten?
  }

  /** One atomic step. A refused upload leaves no trace. */
  ghost function Act(s: Server, a: Action, limit: u64): Server {
    match a
    case Check(u, ns, id, data, meta) =>
      if Admitted(s.disk, limit, |data|)
      then Server(WithNamespace(s.disk, ns), s.inFlight[u := Checked(ns, id, data, meta)])
      else s
    case WriteData(u) =>
      if u in s.inFlight && s.inFlight[u].Checked? then
        var p := s.inFlight[u];
        var disk := WithNamespace(s.disk, p.ns);
        Server(WriteFile(disk, p.ns, p.id, p.data), s.inFlight[u := DataWritten(p.ns, p.id, p.meta)])
      else s
    case WriteMeta(u) =>
      if u in s.inFlight && s.inFlight[u].DataWritten? then
        var p := s.inFlight[u];
        var disk := WithNamespace(s.disk, p.ns);
        Server(WriteFile(disk, p.ns, MetaName(p.id), p.meta), s.inFlight - {u})
      else s
  }

  /** A put without interference is the three steps of one upload in a row. */
  lemma PutIsThreeSteps(disk: Disk, limit: u64, json: Json, c: PutCall)
    requires Sanitize(c.namespace) != ""
    ensures var r, s0 := PutOn(disk, limit, json, c), Server(disk, map[]);
      var s1 := Act(s0, Check(0, Sanitize(c.namespace), IdOf(c), c.data, json.render(c.meta)), limit);
      if r.answer.Success? then Act(Act(s1, WriteData(0), limit), WriteMeta(0), limit) == Server(r.disk, map[])
      else s1 == s0 && r.disk == disk
  {
    hide Admitted;
    hide Sanitize;
    if PutOn(disk, limit, json, c).answer.Success? {
      var s0 := Server(disk, map[]);
      var s1 := Act(s0, Check(0, Sanitize(c.namespace), IdOf(c), c.data, json.render(c.meta)), limit);
      var s2 := Act(s1, WriteData(0), limit);
      var s3 := Act(s2, WriteMeta(0), limit);
      assert s3.inFlight == map[];
    }
  }

  ghost function RunActions(s: Server, actions: seq<Action>, limit: u64): Server {
    if actions == [] then s
    else Act(RunActions(s, actions[..|actions| - 1], limit), actions[|actions| - 1], limit)
  }

  ghost predicate AllAllowed(s: Server, actions: seq<Action>, q: Bounds) {
    forall i :: 0 <= i < |actions| ==> Allowed(RunActions(s, actions[..i], q.limit), actions[i], q)
  }

  // ---- How a write changes sizes ----

  /** Bytes of the files that a filter keeps. */
  ghost function Kept(dir: Dir, metaToo: bool): map<Name, int> {
    map f | f in dir :: if metaToo || !IsMeta(f) then |dir[f]| else 0
  }

  ghost function KeptIn(disk: Disk, metaToo: bool): map<Name, int> {
    map ns | ns in disk :: Total(Kept(disk[ns], metaToo))
  }

  /** All bytes on disk, or those of data files alone. */
  ghost function BytesOn(disk: Disk, metaToo: bool): int {
    Total(KeptIn(disk, metaToo))
  }

  lemma AllBytes(disk: Disk)
    ensures BytesOn(disk, true) == DiskSize(disk)
  {
    forall ns | ns in disk
      ensures Kept(disk[ns], true) == FileSizes(disk[ns])
    {
    }
    assert KeptIn(disk, true) == DirSizes(disk);
  }

  lemma {:induction false} TotalMonotone<K>(m: map<K, int>, m': map<K, int>)
    requires m.Keys == m'.Keys && forall x :: x in m ==> m[x] <= m'[x]
    ensures Total(m) <= Total(m')
    decreases |m|
  {
    if x :| x in m {
      TotalRemove(m, x);
      TotalRemove(m', x);
      TotalMonotone(m - {x}, m' - {x});
    } else {
      assert m == map[] && m' == map[];
    }
  }

  lemma DataBytesAreFewer(disk: Disk)
    ensures 0 <= BytesOn(disk, false) <= DiskSize(disk)
  {
    forall ns | ns in disk
      ensures 0 <= Total(Kept(disk[ns], false)) <= Total(Kept(disk[ns], true))
    {
      TotalNonNegative(Kept(disk[ns], false));
      TotalMonotone(Kept(disk[ns], false), Kept(disk[ns], true));
    }
    TotalNonNegative(KeptIn(disk, false));
    TotalMonotone(KeptIn(disk, false), KeptIn(disk, true));
    AllBytes(disk);
  }

  lemma NamespaceIsFree(disk: Disk, ns: Name, metaToo: bool)
    ensures BytesOn(WithNamespace(disk, ns), metaToo) == BytesOn(disk, metaToo)
  {
    if ns !in disk {
      assert Kept(map[], metaToo) == map[];
      assert KeptIn(disk[ns := map[]], metaToo) == KeptIn(disk, metaToo)[ns := 0];
      TotalPut(KeptIn(disk, metaToo), ns, 0);
    }
  }

  function SizeIf(keep: bool, data: Bytes): nat {
    if keep then |data| else 0
  }

  /** What file `f` counts for. */
  function Counts(f: Name, data: Bytes, metaToo: bool): nat {
    SizeIf(metaToo || !IsMeta(f), data)
  }

  lemma WriteMovesDir(dir: Dir, file: Name, data: Bytes, metaToo: bool)
    ensures Total(Kept(dir[file := data], metaToo)) == Total(Kept(dir, metaToo)) + Counts(file, data, metaToo)
              - (if file in dir then Counts(file, dir[file], metaToo) else 0)
  {
    hide IsMeta;
    TotalPut(Kept(dir, metaToo), file, Counts(file, data, metaToo));
    assert Kept(dir[file := data], metaToo) == Kept(dir, metaToo)[file := Counts(file, data, metaToo)];
  }

  /** A write replaces one file: the bytes move by its new size minus its old size. */
  lemma WriteMovesBytes(disk: Disk, ns: Name, file: Name, data: Bytes, metaToo: bool)
    requires ns in disk
    ensures BytesOn(WriteFile(disk, ns, file, data), metaToo) == BytesOn(disk, metaToo)
              + Counts(file, data, metaToo) - (if file in disk[ns] then Counts(file, disk[ns][file], metaToo) else 0)
  {
    hide Counts;
    var dir' := disk[ns][file := data];
    WriteMovesDir(disk[ns], file, data, metaToo);
    hide Kept;
    TotalPut(KeptIn(disk, metaToo), ns, Total(Kept(dir', metaToo)));
    assert KeptIn(disk[ns := dir'], metaToo) == KeptIn(disk, metaToo)[ns := Total(Kept(dir', metaToo))];
  }

  // ---- The bound ----

  /** What an upload may still add. */
  function Owed(p: Upload, metaToo: bool): nat {
    match p
    case Checked(_, _, data, meta) => |data| + SizeIf(metaToo, meta)
    case DataWritten(_, _, meta) => SizeIf(metaToo, meta)
  }

  ghost function OwedBy(inFlight: map<nat, Upload>, metaToo: bool): map<nat, int> {
    map u | u in inFlight :: Owed(inFlight[u], metaToo)
  }

  /** Bytes on disk plus all that uploads in flight may still write. */
  ghost function Potential(s: Server, metaToo: bool): int {
    BytesOn(s.disk, metaToo) + Total(OwedBy(s.inFlight, metaToo))
  }

  /** The largest body that can pass a check: one above the limit never does. */
  function BodyBound(q: Bounds): nat {
    if q.maxBody < q.limit then q.maxBody else q.limit
  }

  /** What sidecars count for, or nothing when only data files are counted. */
  function SidecarBound(q: Bounds, metaToo: bool): nat {
    if metaToo then q.maxSidecar else 0
  }

  function Ceiling(limit: int, k: nat, x: nat, y: nat): int {
    limit + (k - 1) * x + k * y
  }

  /** The most that uploads can bring about on disk: all bytes, or those of data files alone. */
  function Most(q: Bounds, metaToo: bool): int {
    Ceiling(q.limit, q.k, BodyBound(q), SidecarBound(q, metaToo))
  }

  lemma MoreOfMore(k: nat, x: nat, y: nat)
    requires x <= y
    ensures k * x <= k * y && k * 0 == 0
  {
  }

  /** In plain terms: never more than with bodies of the largest size; and with a single upload at a time,
      data is bounded by the limit itself. */
  lemma MostIsAtMost(q: Bounds)
    requires q.k > 0
    ensures q.limit <= Most(q, false) <= q.limit + (q.k - 1) * q.maxBody
    ensures q.limit <= Most(q, true) <= q.limit + (q.k - 1) * q.maxBody + q.k * q.maxSidecar
    ensures q.k == 1 ==> Most(q, false) == q.limit
  {
    var k, x := q.k - 1, BodyBound(q);
    MoreOfMore(k, x, q.maxBody);
    MoreOfMore(k, 0, x);
    MoreOfMore(q.k, 0, q.maxSidecar);
    hide BodyBound;
  }

  ghost predicate UploadsFit(inFlight: map<nat, Upload>, q: Bounds) {
    && |inFlight| <= q.k
    && (forall u :: u in inFlight ==>
          && CleanName(inFlight[u].id)
          && |inFlight[u].meta| <= q.maxSidecar
          && (inFlight[u].Checked? ==> |inFlight[u].data| <= BodyBound(q)))
  }

  /** Stored bytes, and those still to be written, stay within `most`. */
  ghost predicate Bounded(s: Server, q: Bounds, metaToo: bool, most: int) {
    UploadsFit(s.inFlight, q) && Potential(s, metaToo) <= most
  }

  lemma OneMoreTime(n: int, each: int)
    ensures (n + 1) * each == n * each + each
  {
  }

  lemma {:induction false} OwedAtMost(inFlight: map<nat, Upload>, q: Bounds, metaToo: bool)
    requires forall u :: u in inFlight ==>
      |inFlight[u].meta| <= q.maxSidecar && (inFlight[u].Checked? ==> |inFlight[u].data| <= BodyBound(q))
    ensures Total(OwedBy(inFlight, metaToo)) <= |inFlight| * (BodyBound(q) + SidecarBound(q, metaToo))
    decreases |inFlight|
  {
    if u :| u in inFlight {
      TotalRemove(OwedBy(inFlight, metaToo), u);
      assert OwedBy(inFlight - {u}, metaToo) == OwedBy(inFlight, metaToo) - {u};
      OwedAtMost(inFlight - {u}, q, metaToo);
      assert |inFlight - {u}| == |inFlight| - 1;
      assert Owed(inFlight[u], metaToo) <= BodyBound(q) + SidecarBound(q, metaToo);
      hide Owed, OwedBy, SidecarBound;
      OneMoreTime(|inFlight| - 1, BodyBound(q) + SidecarBound(q, metaToo));
    } else {
      assert OwedBy(inFlight, metaToo) == map[];
    }
  }

  /** Room for `n` uploads in flight and one more whose body `d` passed the check. */
  lemma RoomForOne(n: nat, k: nat, x: nat, y: nat, limit: int, used: int, owed: int, d: nat, m: nat)
    requires n < k && used + d <= limit && owed <= n * (x + y) && m <= y
    ensures used + owed + d + m <= Ceiling(limit, k, x, y)
  {
    assert n * (x + y) <= (k - 1) * (x + y);
    assert (k - 1) * (x + y) == (k - 1) * x + (k - 1) * y;
    assert k * y == (k - 1) * y + y;
  }

  lemma OwedPut(inFlight: map<nat, Upload>, u: nat, p: Upload, metaToo: bool)
    ensures Total(OwedBy(inFlight[u := p], metaToo)) ==
            Total(OwedBy(inFlight, metaToo)) + Owed(p, metaToo)
              - (if u in inFlight then Owed(inFlight[u], metaToo) else 0)
  {
    hide Owed;
    TotalPut(OwedBy(inFlight, metaToo), u, Owed(p, metaToo));
    assert OwedBy(inFlight[u := p], metaToo) == OwedBy(inFlight, metaToo)[u := Owed(p, metaToo)];
  }

  lemma OwedDrop(inFlight: map<nat, Upload>, u: nat, metaToo: bool)
    requires u in inFlight
    ensures Total(OwedBy(inFlight - {u}, metaToo)) == Total(OwedBy(inFlight, metaToo)) - Owed(inFlight[u], metaToo)
  {
    hide Owed;
    TotalDrop(OwedBy(inFlight, metaToo), u);
    assert OwedBy(inFlight - {u}, metaToo) == OwedBy(inFlight, metaToo) - {u};
  }

  /** A check passes exactly when the body still fits, unless the limit is the largest word: then always. */
  lemma AdmittedIff(disk: Disk, limit: u64, size: nat)
    ensures Admitted(disk, limit, size) <==> limit == MAX64 || DiskSize(disk) + size <= limit
  {
    hide DiskSize;
  }

  /** A check that passes saw the disk as it was, so the potential fits under the ceiling afresh. */
  lemma CheckKeepsBound(s: Server, u: nat, p: Upload, q: Bounds, metaToo: bool)
    requires UploadsFit(s.inFlight, q) && u !in s.inFlight && |s.inFlight| < q.k && q.limit < MAX64
    requires p.Checked? && |p.meta| <= q.maxSidecar && Admitted(s.disk, q.limit, |p.data|)
    ensures Potential(Server(WithNamespace(s.disk, p.ns), s.inFlight[u := p]), metaToo) <= Most(q, metaToo)
  {
    hide BytesOn, OwedBy, Total, CleanName, DiskSize, WithNamespace, Admitted, Ceiling, BodyBound;
    AdmittedIff(s.disk, q.limit, |p.data|);
    NamespaceIsFree(s.disk, p.ns, metaToo);
    OwedPut(s.inFlight, u, p, metaToo);
    OwedAtMost(s.inFlight, q, metaToo);
    AllBytes(s.disk);
    DataBytesAreFewer(s.disk);
    RoomForOne(|s.inFlight|, q.k, BodyBound(q), SidecarBound(q, metaToo), q.limit, BytesOn(s.disk, metaToo),
               Total(OwedBy(s.inFlight, metaToo)), |p.data|, SizeIf(metaToo, p.meta));
  }

  /** Writing the data turns what was owed into bytes on disk. */
  lemma DataKeepsPotential(s: Server, u: nat, limit: u64, metaToo: bool)
    requires u in s.inFlight && CleanName(s.inFlight[u].id)
    ensures Potential(Act(s, WriteData(u), limit), metaToo) <= Potential(s, metaToo)
  {
    var p := s.inFlight[u];
    if p.Checked? {
      NamespaceIsFree(s.disk, p.ns, metaToo);
      SidecarsAreApart(p.id, p.id);
      WriteMovesBytes(WithNamespace(s.disk, p.ns), p.ns, p.id, p.data, metaToo);
      OwedPut(s.inFlight, u, DataWritten(p.ns, p.id, p.meta), metaToo);
      hide BytesOn;
      hide OwedBy;
    }
  }

  /** So does writing the sidecar. */
  lemma MetaKeepsPotential(s: Server, u: nat, limit: u64, metaToo: bool)
    requires u in s.inFlight
    ensures Potential(Act(s, WriteMeta(u), limit), metaToo) <= Potential(s, metaToo)
  {
    var p := s.inFlight[u];
    if p.DataWritten? {
      NamespaceIsFree(s.disk, p.ns, metaToo);
      SidecarsAreApart(p.id, p.id);
      WriteMovesBytes(WithNamespace(s.disk, p.ns), p.ns, MetaName(p.id), p.meta, metaToo);
      OwedDrop(s.inFlight, u, metaToo);
      hide BytesOn;
      hide OwedBy;
    }
  }

  lemma ActKeepsBound(s: Server, a: Action, q: Bounds, metaToo: bool, most: int)
    requires Bounded(s, q, metaToo, most) && Allowed(s, a, q) && q.limit < MAX64 && Most(q, metaToo) <= most
    ensures Bounded(Act(s, a, q.limit), q, metaToo, most)
  {
    hide Potential, CleanName, Most;
    ActKeepsFit(s, a, q);
    match a
    case Check(u, ns, id, data, meta) =>
      if Admitted(s.disk, q.limit, |data|) {
        CheckKeepsBound(s, u, Checked(ns, id, data, meta), q, metaToo);
      }
    case WriteData(u) => DataKeepsPotential(s, u, q.limit, metaToo);
    case WriteMeta(u) => MetaKeepsPotential(s, u, q.limit, metaToo);
  }

  lemma ActKeepsFit(s: Server, a: Action, q: Bounds)
    requires UploadsFit(s.inFlight, q) && Allowed(s, a, q) && q.limit < MAX64
    ensures UploadsFit(Act(s, a, q.limit).inFlight, q)
  {
    hide CleanName;
    if a.WriteData? {
      assert Act(s, a, q.limit).inFlight.Keys == s.inFlight.Keys;
      assert |Act(s, a, q.limit).inFlight.Keys| == |s.inFlight.Keys|;
    } else if a.Check? {
      AdmittedIff(s.disk, q.limit, |a.data|);
      DataBytesAreFewer(s.disk);
      hide DiskSize, BytesOn, Admitted;
    }
  }

  lemma {:induction false} RunKeepsBound(s: Server, actions: seq<Action>, q: Bounds, metaToo: bool, most: int)
    requires Bounded(s, q, metaToo, most) && q.limit < MAX64 && Most(q, metaToo) <= most
    requires AllAllowed(s, actions, q)
    ensures Bounded(RunActions(s, actions, q.limit), q, metaToo, most)
  {
    hide Bounded, Act, Allowed, Most;
    if actions != [] {
      var n := |actions| - 1;
      forall i | 0 <= i < n
        ensures Allowed(RunActions(s, actions[..n][..i], q.limit), actions[..n][i], q)
      {
        assert actions[..n][..i] == actions[..i];
      }
      RunKeepsBound(s, actions[..n], q, metaToo, most);
      ActKeepsBound(RunActions(s, actions[..n], q.limit), actions[n], q, metaToo, most);
    }
  }

  lemma BoundedMeansBytes(s: Server, q: Bounds, metaToo: bool, most: int)
    requires Bounded(s, q, metaToo, most)
    ensures BytesOn(s.disk, metaToo) <= most
  {
    TotalNonNegative(OwedBy(s.inFlight, metaToo));
  }

  lemma NothingInFlight(disk: Disk, q: Bounds, metaToo: bool)
    ensures Bounded(Server(disk, map[]), q, metaToo, BytesOn(disk, metaToo))
  {
    assert OwedBy(map[], metaToo) == map[];
  }

  function Larger(x: int, y: int): int {
    if x < y then y else x
  }

  /** Under any interleaving of uploads, from any disk: all bytes, and the bytes of data files alone, never
      exceed what uploads can bring about, or what was there at the start if that is more. */
  lemma {:induction false} QuotaHolds(disk: Disk, actions: seq<Action>, q: Bounds, metaToo: bool)
    requires q.limit < MAX64 && AllAllowed(Server(disk, map[]), actions, q)
    ensures BytesOn(RunActions(Server(disk, map[]), actions, q.limit).disk, metaToo)
            <= Larger(BytesOn(disk, metaToo), Most(q, metaToo))
  {
    hide BytesOn, Most, AllAllowed;
    var most := Larger(BytesOn(disk, metaToo), Most(q, metaToo));
    NothingInFlight(disk, q, metaToo);
    assert Bounded(Server(disk, map[]), q, metaToo, most);
    hide Bounded;
    RunKeepsBound(Server(disk, map[]), actions, q, metaToo, most);
    BoundedMeansBytes(RunActions(Server(disk, map[]), actions, q.limit), q, metaToo, most);
  }

  /** Data that starts within the limit stays within `limit + (k - 1) * maxBody`, however many bytes of
      sidecars there are: with a single upload at a time, within the limit itself. */
  lemma DataStaysWithinQuota(disk: Disk, actions: seq<Action>, q: Bounds)
    requires q.k > 0 && q.limit < MAX64 && BytesOn(disk, false) <= q.limit
    requires AllAllowed(Server(disk, map[]), actions, q)
    ensures BytesOn(RunActions(Server(disk, map[]), actions, q.limit).disk, false) <= q.limit + (q.k - 1) * q.maxBody
    ensures q.k == 1 ==> BytesOn(RunActions(Server(disk, map[]), actions, q.limit).disk, false) <= q.limit
  {
    QuotaHolds(disk, actions, q, false);
    hide BytesOn, RunActions, AllAllowed, Most;
    MostIsAtMost(q);
  }

  /** A disk that starts under `limit + (k - 1) * maxBody + k * maxSidecar` stays under it: a finished run may
      be followed by another. */
  lemma DiskStaysWithinQuota(disk: Disk, actions: seq<Action>, q: Bounds)
    requires q.k > 0 && q.limit < MAX64
    requires DiskSize(disk) <= q.limit + (q.k - 1) * q.maxBody + q.k * q.maxSidecar
    requires AllAllowed(Server(disk, map[]), actions, q)
    ensures DiskSize(RunActions(Server(disk, map[]), actions, q.limit).disk)
            <= q.limit + (q.k - 1) * q.maxBody + q.k * q.maxSidecar
  {
    QuotaHolds(disk, actions, q, true);
    AllBytes(disk);
    AllBytes(RunActions(Server(disk, map[]), actions, q.limit).disk);
    hide BytesOn, DiskSize, RunActions, AllAllowed, Most;
    MostIsAtMost(q);
  }

  // ---- The bound is reached ----

  /** The id of upload number `u`. */
  function UnaryId(u: nat): Name {
    seq(u + 1, _ => 'x')
  }

  function Zeros(n: nat): (b: Bytes)
    ensures |b| == n
  {
    seq(n, _ => 0)
  }

  function CheckOf(u: nat, q: Bounds): Action {
    Check(u, "a", UnaryId(u), Zeros(BodyBound(q)), Zeros(q.maxSidecar))
  }

  /** All checks first, then upload after upload writes its data and its sidecar. */
  function Checks(n: nat, q: Bounds): seq<Action> {
    if n == 0 then [] else Checks(n - 1, q) + [CheckOf(n - 1, q)]
  }

  function Script(n: nat, q: Bounds): seq<Action> {
    if n == 0 then Checks(q.k, q) else Script(n - 1, q) + [WriteData(n - 1)] + [WriteMeta(n - 1)]
  }

  /** What one upload of the script still has to write. */
  function Job(n: nat, q: Bounds): Upload {
    Checked("a", UnaryId(n), Zeros(BodyBound(q)), Zeros(q.maxSidecar))
  }

  function Pending(lo: nat, hi: nat, q: Bounds): map<nat, Upload> {
    map u | lo <= u < hi :: Job(u, q)
  }

  /** A disk with a single data file of `n` bytes. */
  function OneFile(n: nat): Disk {
    map["a" := map["full" := Zeros(n)]]
  }

  lemma OneFileSize(n: nat, metaToo: bool)
    ensures BytesOn(OneFile(n), metaToo) == n
  {
    var dir := OneFile(n)["a"];
    SidecarsAreApart("full", "full");
    TotalRemove(Kept(dir, metaToo), "full");
    assert Kept(dir, metaToo) - {"full"} == map[];
    TotalRemove(KeptIn(OneFile(n), metaToo), "a");
    assert KeptIn(OneFile(n), metaToo) - {"a"} == map[];
  }

  /** A disk with room for exactly one more body. */
  function AlmostFull(q: Bounds): Disk {
    OneFile(q.limit - BodyBound(q))
  }

  lemma {:induction false} PendingCount(n: nat, q: Bounds)
    ensures |Pending(0, n, q)| == n
  {
    if n > 0 {
      PendingCount(n - 1, q);
      assert Pending(0, n, q).Keys == Pending(0, n - 1, q).Keys + {n - 1};
      assert |Pending(0, n, q)| == |Pending(0, n, q).Keys|;
    }
  }

  lemma NoActions(s: Server, q: Bounds)
    ensures AllAllowed(s, [], q) && RunActions(s, [], q.limit) == s
  {
  }

  lemma OneMoreAction(s: Server, actions: seq<Action>, a: Action, q: Bounds)
    requires AllAllowed(s, actions, q) && Allowed(RunActions(s, actions, q.limit), a, q)
    ensures AllAllowed(s, actions + [a], q)
    ensures RunActions(s, actions + [a], q.limit) == Act(RunActions(s, actions, q.limit), a, q.limit)
  {
    assert (actions + [a])[..|actions|] == actions;
    forall i | 0 <= i <= |actions|
      ensures Allowed(RunActions(s, (actions + [a])[..i], q.limit), (actions + [a])[i], q)
    {
      if i < |actions| {
        assert (actions + [a])[..i] == actions[..i];
      }
    }
  }

  lemma RoomForBody(q: Bounds)
    ensures Admitted(AlmostFull(q), q.limit, BodyBound(q))
    ensures WithNamespace(AlmostFull(q), "a") == AlmostFull(q)
  {
    OneFileSize(q.limit - BodyBound(q), true);
    AllBytes(AlmostFull(q));
    AdmittedIff(AlmostFull(q), q.limit, BodyBound(q));
    hide DiskSize, BytesOn, Admitted, Zeros;
  }

  lemma CheckPasses(n: nat, q: Bounds)
    requires 0 < n <= q.k
    ensures var s := Server(AlmostFull(q), Pending(0, n - 1, q));
      && Allowed(s, CheckOf(n - 1, q), q)
      && Act(s, CheckOf(n - 1, q), q.limit) == Server(AlmostFull(q), Pending(0, n, q))
  {
    assert CleanName("a") && CleanName(UnaryId(n - 1));
    hide AlmostFull, WithNamespace, Admitted, Zeros, CleanName, UnaryId;
    PendingCount(n - 1, q);
    RoomForBody(q);
    hide BodyBound;
    assert Pending(0, n - 1, q)[n - 1 := Job(n - 1, q)] == Pending(0, n, q);
  }

  lemma {:induction false} AfterChecks(n: nat, q: Bounds)
    requires n <= q.k
    ensures var s0 := Server(AlmostFull(q), map[]);
      && AllAllowed(s0, Checks(n, q), q)
      && RunActions(s0, Checks(n, q), q.limit) == Server(AlmostFull(q), Pending(0, n, q))
  {
    hide RunActions, AllAllowed, Act, Allowed, AlmostFull, CheckOf;
    var s0 := Server(AlmostFull(q), map[]);
    if n == 0 {
      NoActions(s0, q);
      assert Pending(0, 0, q) == map[];
    } else {
      AfterChecks(n - 1, q);
      CheckPasses(n, q);
      OneMoreAction(s0, Checks(n - 1, q), CheckOf(n - 1, q), q);
    }
  }

  /** No file of an upload from `n` on exists yet. */
  ghost predicate Unwritten(dir: Dir, n: nat) {
    forall u :: n <= u ==> UnaryId(u) !in dir && MetaName(UnaryId(u)) !in dir
  }

  lemma NamesAreFresh(u: nat, v: nat)
    requires u != v
    ensures UnaryId(u) != UnaryId(v) && MetaName(UnaryId(u)) != MetaName(UnaryId(v))
    ensures UnaryId(u) != MetaName(UnaryId(v))
  {
    assert |UnaryId(u)| != |UnaryId(v)|;
    SidecarsAreApart(UnaryId(u), UnaryId(v));
  }

  /** Writing a body and a sidecar to names that are free adds their sizes. */
  lemma FreshWritesAdd(disk: Disk, id: Name, data: Bytes, meta: Bytes, metaToo: bool)
    requires "a" in disk && CleanName(id) && id !in disk["a"] && MetaName(id) !in disk["a"]
    ensures var d2 := WriteFile(WriteFile(disk, "a", id, data), "a", MetaName(id), meta);
      BytesOn(d2, metaToo) == BytesOn(disk, metaToo) + |data| + SizeIf(metaToo, meta)
  {
    var d1 := WriteFile(disk, "a", id, data);
    SidecarsAreApart(id, id);
    WriteMovesBytes(disk, "a", id, data, metaToo);
    WriteMovesBytes(d1, "a", MetaName(id), meta, metaToo);
  }

  lemma StillUnwritten(dir: Dir, n: nat, data: Bytes, meta: Bytes)
    requires Unwritten(dir, n)
    ensures Unwritten(dir[UnaryId(n) := data][MetaName(UnaryId(n)) := meta], n + 1)
  {
    var dir' := dir[UnaryId(n) := data][MetaName(UnaryId(n)) := meta];
    forall u | n + 1 <= u
      ensures UnaryId(u) !in dir' && MetaName(UnaryId(u)) !in dir'
    {
      NamesAreFresh(u, n);
      NamesAreFresh(n, u);
    }
  }

  lemma UploadSteps(s: Server, n: nat, q: Bounds)
    requires n < q.k && s.inFlight == Pending(n, q.k, q) && "a" in s.disk
    ensures var p := Job(n, q);
      var s1 := Act(s, WriteData(n), q.limit);
      && Allowed(s, WriteData(n), q) && Allowed(s1, WriteMeta(n), q)
      && Act(s1, WriteMeta(n), q.limit) ==
         Server(WriteFile(WriteFile(s.disk, "a", p.id, p.data), "a", MetaName(p.id), p.meta), Pending(n + 1, q.k, q))
  {
    hide MetaName, UnaryId, BodyBound, Zeros;
    var p := Job(n, q);
    assert s.inFlight[n := DataWritten("a", p.id, p.meta)] - {n} == Pending(n + 1, q.k, q);
  }

  /** One upload of the script: it adds its body and its sidecar to a disk that has neither. */
  lemma UploadAdds(s: Server, n: nat, q: Bounds, metaToo: bool)
    requires n < q.k && s.inFlight == Pending(n, q.k, q)
    requires "a" in s.disk && Unwritten(s.disk["a"], n)
    ensures var s1 := Act(s, WriteData(n), q.limit);
      var s2 := Act(s1, WriteMeta(n), q.limit);
      && Allowed(s, WriteData(n), q) && Allowed(s1, WriteMeta(n), q)
      && s2.inFlight == Pending(n + 1, q.k, q)
      && "a" in s2.disk && Unwritten(s2.disk["a"], n + 1)
      && BytesOn(s2.disk, metaToo) == BytesOn(s.disk, metaToo) + BodyBound(q) + SidecarBound(q, metaToo)
  {
    assert CleanName(UnaryId(n));
    hide Act, Allowed, BytesOn, MetaName, UnaryId, BodyBound, Zeros, CleanName, Pending;
    UploadSteps(s, n, q);
    FreshWritesAdd(s.disk, UnaryId(n), Zeros(BodyBound(q)), Zeros(q.maxSidecar), metaToo);
    StillUnwritten(s.disk["a"], n, Zeros(BodyBound(q)), Zeros(q.maxSidecar));
    hide Unwritten;
  }

  /** Where the script stands after `n` uploads are complete. */
  ghost predicate Completed(s: Server, n: nat, q: Bounds, metaToo: bool)
    requires n <= q.k
  {
    && s.inFlight == Pending(n, q.k, q)
    && "a" in s.disk && Unwritten(s.disk["a"], n)
    && BytesOn(s.disk, metaToo) == StoredAfter(n, q, metaToo)
  }

  function StoredAfter(n: nat, q: Bounds, metaToo: bool): int {
    q.limit - BodyBound(q) + n * (BodyBound(q) + SidecarBound(q, metaToo))
  }

  lemma StoredNext(n: nat, q: Bounds, metaToo: bool)
    ensures StoredAfter(n + 1, q, metaToo) == StoredAfter(n, q, metaToo) + BodyBound(q) + SidecarBound(q, metaToo)
  {
    OneMoreTime(n, BodyBound(q) + SidecarBound(q, metaToo));
  }

  lemma NothingWritten(q: Bounds)
    ensures "a" in AlmostFull(q) && Unwritten(AlmostFull(q)["a"], 0)
  {
    hide Zeros, BodyBound;
    forall u: nat
      ensures UnaryId(u) != "full" && MetaName(UnaryId(u)) != "full"
    {
      assert UnaryId(u)[0] == 'x' && MetaName(UnaryId(u))[0] == 'x' && "full"[0] == 'f';
    }
  }

  lemma NothingCompleted(q: Bounds, metaToo: bool)
    ensures Completed(Server(AlmostFull(q), Pending(0, q.k, q)), 0, q, metaToo)
  {
    NothingWritten(q);
    OneFileSize(q.limit - BodyBound(q), metaToo);
    hide BytesOn, BodyBound, Pending, Zeros, Unwritten, OneFile;
  }

  lemma OneMoreCompleted(s: Server, n: nat, q: Bounds, metaToo: bool)
    requires n < q.k && Completed(s, n, q, metaToo)
    ensures var s1 := Act(s, WriteData(n), q.limit);
      && Allowed(s, WriteData(n), q) && Allowed(s1, WriteMeta(n), q)
      && Completed(Act(s1, WriteMeta(n), q.limit), n + 1, q, metaToo)
  {
    UploadAdds(s, n, q, metaToo);
    hide Act, Allowed, BytesOn, Unwritten, Pending, BodyBound, SidecarBound, StoredAfter;
    StoredNext(n, q, metaToo);
  }

  lemma {:induction false} AfterScript(n: nat, q: Bounds, metaToo: bool)
    requires n <= q.k
    ensures AllAllowed(Server(AlmostFull(q), map[]), Script(n, q), q)
    ensures Completed(RunActions(Server(AlmostFull(q), map[]), Script(n, q), q.limit), n, q, metaToo)
  {
    hide RunActions, AllAllowed, Act, Allowed, AlmostFull, Completed, Checks;
    var s0 := Server(AlmostFull(q), map[]);
    if n == 0 {
      AfterChecks(q.k, q);
      NothingCompleted(q, metaToo);
    } else {
      AfterScript(n - 1, q, metaToo);
      var s := RunActions(s0, Script(n - 1, q), q.limit);
      OneMoreCompleted(s, n - 1, q, metaToo);
      OneMoreAction(s0, Script(n - 1, q), WriteData(n - 1), q);
      OneMoreAction(s0, Script(n - 1, q) + [WriteData(n - 1)], WriteMeta(n - 1), q);
    }
  }

  lemma CeilingSplits(limit: int, k: nat, x: nat, y: nat)
    ensures limit - x + k * (x + y) == Ceiling(limit, k, x, y)
  {
    Distributes(k, x, y);
    OneMoreTime(k - 1, x);
  }

  lemma Distributes(k: nat, x: nat, y: nat)
    ensures k * (x + y) == k * x + k * y
  {
  }

  lemma AllStored(q: Bounds, metaToo: bool)
    ensures StoredAfter(q.k, q, metaToo) == Most(q, metaToo)
  {
    hide Ceiling, BodyBound, SidecarBound;
    CeilingSplits(q.limit, q.k, BodyBound(q), SidecarBound(q, metaToo));
  }

  /** The bound is exact, for all bytes and for data alone: whatever the sizes are, some interleaving of `k`
      uploads on a disk that starts within the limit stores as much as `Most` says. */
  lemma {:induction false} QuotaBoundIsReached(q: Bounds, metaToo: bool)
    requires q.k > 0
    ensures BytesOn(AlmostFull(q), metaToo) <= q.limit
    ensures AllAllowed(Server(AlmostFull(q), map[]), Script(q.k, q), q)
    ensures BytesOn(RunActions(Server(AlmostFull(q), map[]), Script(q.k, q), q.limit).disk, metaToo) == Most(q, metaToo)
  {
    hide RunActions, AllAllowed, BytesOn, Script;
    AfterScript(q.k, q, metaToo);
    OneFileSize(q.limit - BodyBound(q), metaToo);
    hide Most, StoredAfter;
    AllStored(q, metaToo);
  }

  // ---- The largest limit ----

  lemma LoneSteps(q: Bounds)
    requires q.limit == MAX64 && q.k == 1 && q.maxBody > 0
    ensures var s0, c, d := Server(OneFile(q.limit), map[]), Check(0, "a", "x", [0], []), WriteData(0);
      var s1 := Act(s0, c, q.limit);
      && Allowed(s0, c, q) && Allowed(s1, d, q)
      && Act(s1, d, q.limit).disk == WriteFile(OneFile(q.limit), "a", "x", [0])
  {
    AdmittedIff(OneFile(q.limit), q.limit, 1);
    assert CleanName("a") && CleanName("x");
    hide Admitted, Zeros, CleanName, DiskSize;
  }

  lemma LoneUpload(q: Bounds)
    requires q.limit == MAX64 && q.k == 1 && q.maxBody > 0
    ensures var s0, actions := Server(OneFile(q.limit), map[]), [Check(0, "a", "x", [0], []), WriteData(0)];
      && AllAllowed(s0, actions, q)
      && RunActions(s0, actions, q.limit).disk == WriteFile(OneFile(q.limit), "a", "x", [0])
  {
    hide RunActions, AllAllowed, Act, Allowed, OneFile, WriteFile;
    var s0, c, d := Server(OneFile(q.limit), map[]), Check(0, "a", "x", [0], []), WriteData(0);
    LoneSteps(q);
    NoActions(s0, q);
    OneMoreAction(s0, [], c, q);
    assert [] + [c] == [c] && [c] + [d] == [c, d];
    OneMoreAction(s0, [c], d, q);
  }

  /** At the largest limit nothing is refused: a single upload of one byte pushes data over the limit. So with
      one upload at a time the limit holds for all runs if and only if it is not the largest word. */
  lemma LargestLimitIsNone(q: Bounds)
    requires q.limit == MAX64 && q.k == 1 && q.maxBody > 0
    ensures BytesOn(OneFile(q.limit), false) == q.limit
    ensures var actions := [Check(0, "a", "x", [0], []), WriteData(0)];
      && AllAllowed(Server(OneFile(q.limit), map[]), actions, q)
      && BytesOn(RunActions(Server(OneFile(q.limit), map[]), actions, q.limit).disk, false) == q.limit + 1
  {
    LoneUpload(q);
    hide RunActions, AllAllowed, BytesOn;
    OneFileSize(q.limit, false);
    SidecarsAreApart("x", "x");
    WriteMovesBytes(OneFile(q.limit), "a", "x", [0], false);
  }
}
