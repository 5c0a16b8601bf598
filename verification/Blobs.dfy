/** The blob store on the file system: data files and `.meta` sidecars in one directory per namespace,
    as a map from sanitized keys to blobs. */
module Blobs {
  import opened Words
  import opened Records
  import opened Sums

  type Name = string
  type Dir = map<Name, Bytes>
  type Disk = map<Name, Dir>

  type u8 = x: int | 0 <= x < 256

  const MIN_REPLICATION_MIN: u8 := 1

  datatype BlobMeta = BlobMeta(minReplication: u8, uploader: Option<string>)

  const DEFAULT_META := BlobMeta(MIN_REPLICATION_MIN, None)

  /** The JSON library, of which only this is used: what is rendered parses back. */
  datatype Json = Json(render: BlobMeta -> Bytes, parse: Bytes -> Option<BlobMeta>)

  ghost predicate Lawful(json: Json) {
    forall m :: json.parse(json.render(m)) == Some(m)
  }

  datatype Failure = LimitExceeded | EmptyName | NotFound

  datatype Answer<+T> = Success(value: T) | Failure(why: Failure)

  // ---- Names ----

  predicate IsClean(c: char) {
    'a' <= c <= 'z' || 'A' <= c <= 'Z' || '0' <= c <= '9' || c == '-' || c == '_'
  }

  function Sanitize(s: string): (t: string)
    ensures |t| == |s| && forall i :: 0 <= i < |t| ==> IsClean(t[i])
    ensures (forall i :: 0 <= i < |s| ==> IsClean(s[i])) ==> t == s
    ensures forall i :: 0 <= i < |s| && !IsClean(s[i]) ==> t[i] == '_'
  {
    seq(|s|, i requires 0 <= i < |s| => if IsClean(s[i]) then s[i] else '_')
  }

  predicate CleanName(s: Name) {
    s != "" && forall i :: 0 <= i < |s| ==> IsClean(s[i])
  }

  function MetaName(id: Name): Name {
    id + ".meta"
  }

  predicate IsMeta(name: Name) {
    |name| >= 5 && name[|name| - 5..] == ".meta"
  }

  /** A sidecar is never a data file, and different data files have different sidecars. */
  lemma SidecarsAreApart(id: Name, id': Name)
    ensures IsMeta(MetaName(id))
    ensures CleanName(id) ==> !IsMeta(id) && MetaName(id') != id
    ensures MetaName(id) == MetaName(id') ==> id == id'
  {
    assert MetaName(id)[|id|..] == ".meta";
    assert MetaName(id)[..|id|] == id && MetaName(id')[..|id'|] == id';
    if IsMeta(id) {
      assert id[|id| - 5] == id[|id| - 5..][0] == '.';
    }
    if MetaName(id') == id {
      assert id[|id'|] == '.';
    }
  }

  // ---- Sizes ----

  ghost function FileSizes(dir: Dir): map<Name, int> {
    map f | f in dir :: |dir[f]|
  }

  ghost function DirSize(dir: Dir): int {
    Total(FileSizes(dir))
  }

  ghost function DirSizes(disk: Disk): map<Name, int> {
    map ns | ns in disk :: DirSize(disk[ns])
  }

  /** Bytes of all files under the base directory. */
  ghost function DiskSize(disk: Disk): int {
    Total(DirSizes(disk))
  }

  /** A sum that stops at the largest word. */
  function Saturate(x: int): int {
    if x > MAX64 then MAX64 else x
  }

  // ---- Operations as functions of the disk ----

  function WithNamespace(disk: Disk, ns: Name): Disk {
    if ns in disk then disk else disk[ns := map[]]
  }

  function WriteFile(disk: Disk, ns: Name, file: Name, data: Bytes): Disk
    requires ns in disk
  {
    disk[ns := disk[ns][file := data]]
  }

  datatype PutCall = PutCall(
    namespace: string, idHint: Option<string>, data: Bytes, meta: BlobMeta, uuid: Name)

  /** The id under which a call stores: its sanitized hint, or the generated one. */
  function IdOf(c: PutCall): Name {
    if c.idHint.Some? && Sanitize(c.idHint.value) != "" then Sanitize(c.idHint.value) else c.uuid
  }

  /** Whether the quota check lets a call through. */
  ghost predicate Admitted(disk: Disk, limit: u64, size: nat) {
    Saturate(DiskSize(disk) + size) <= limit
  }

  datatype PutResult = PutResult(disk: Disk, answer: Answer<Name>)

  ghost function PutOn(disk: Disk, limit: u64, json: Json, c: PutCall): PutResult {
    var ns, id := Sanitize(c.namespace), IdOf(c);
    if !Admitted(disk, limit, |c.data|) then PutResult(disk, Failure(LimitExceeded))
    else if ns == "" then PutResult(disk, Failure(EmptyName))
    else
      var d1 := WithNamespace(disk, ns);
      var d2 := WriteFile(d1, ns, id, c.data);
      PutResult(WriteFile(d2, ns, MetaName(id), json.render(c.meta)), Success(id))
  }

  function GetFrom(disk: Disk, namespace: string, id: string): Answer<Bytes> {
    var ns, name := Sanitize(namespace), Sanitize(id);
    if ns == "" || name == "" then Failure(EmptyName)
    else if ns !in disk || name !in disk[ns] then Failure(NotFound)
    else Success(disk[ns][name])
  }

  function ReadMeta(dir: Dir, id: Name, json: Json): BlobMeta {
    if MetaName(id) !in dir then DEFAULT_META
    else
      var m := json.parse(dir[MetaName(id)]);
      if m.Some? then m.value else DEFAULT_META
  }

  // ---- The store as a map ----

  datatype Blob = Blob(data: Bytes, meta: BlobMeta)

  /** The blob stored under a key, sidecars not being blobs. */
  function BlobAt(disk: Disk, json: Json, ns: Name, id: Name): Option<Blob> {
    if ns in disk && id in disk[ns] && !IsMeta(id)
    then Some(Blob(disk[ns][id], ReadMeta(disk[ns], id, json))) else None
  }

  /** A put sets the blob under its own key and leaves every other key alone; a failed one changes nothing. */
  lemma PutSetsOneKey(disk: Disk, limit: u64, json: Json, c: PutCall, ns: Name, id: Name)
    requires Lawful(json) && CleanName(c.uuid)
    ensures var r := PutOn(disk, limit, json, c);
      if r.answer.Success?
      then BlobAt(r.disk, json, ns, id) ==
           if ns == Sanitize(c.namespace) && id == IdOf(c) then Some(Blob(c.data, c.meta))
           else BlobAt(disk, json, ns, id)
      else r.disk == disk
  {
    var mine := IdOf(c);
    SidecarsAreApart(mine, id);
    SidecarsAreApart(mine, mine);
    SidecarsAreApart(id, mine);
    hide Admitted;
    hide Sanitize;
    hide MetaName;
  }

  ghost function RunPuts(disk: Disk, limit: u64, json: Json, calls: seq<PutCall>): Disk {
    if calls == [] then disk
    else PutOn(RunPuts(disk, limit, json, calls[..|calls| - 1]), limit, json, calls[|calls| - 1]).disk
  }

  /** Call number `i` stores under the given key. */
  ghost predicate Stores(disk: Disk, limit: u64, json: Json, calls: seq<PutCall>, i: nat, ns: Name, id: Name)
    requires i < |calls|
  {
    && PutOn(RunPuts(disk, limit, json, calls[..i]), limit, json, calls[i]).answer == Success(id)
    && Sanitize(calls[i].namespace) == ns
  }

  lemma StoresInFront(disk: Disk, limit: u64, json: Json, calls: seq<PutCall>, i: nat, n: nat, ns: Name, id: Name)
    requires i < n <= |calls|
    ensures Stores(disk, limit, json, calls[..n], i, ns, id) == Stores(disk, limit, json, calls, i, ns, id)
  {
    assert calls[..n][..i] == calls[..i];
  }

  /** After any sequence of puts, a key holds the data and metadata of the last put that stored under it. */
  lemma {:induction false} LastPutWins(disk: Disk, limit: u64, json: Json, calls: seq<PutCall>, i: nat,
                                         ns: Name, id: Name)
    requires Lawful(json) && forall j :: 0 <= j < |calls| ==> CleanName(calls[j].uuid)
    requires i < |calls| && Stores(disk, limit, json, calls, i, ns, id)
    requires forall j :: i < j < |calls| ==> !Stores(disk, limit, json, calls, j, ns, id)
    ensures BlobAt(RunPuts(disk, limit, json, calls), json, ns, id) == Some(Blob(calls[i].data, calls[i].meta))
  {
    hide BlobAt;
    hide RunPuts;
    var n := |calls| - 1;
    LastOrEarlier(disk, limit, json, calls, ns, id);
    if i < n {
      forall j | i <= j < n
        ensures Stores(disk, limit, json, calls[..n], j, ns, id) == Stores(disk, limit, json, calls, j, ns, id)
      {
        StoresInFront(disk, limit, json, calls, j, n, ns, id);
      }
      hide Stores;
      LastPutWins(disk, limit, json, calls[..n], i, ns, id);
    }
  }

  /** A key under which no put stored holds what it held before. */
  lemma {:induction false} NoPutKeeps(disk: Disk, limit: u64, json: Json, calls: seq<PutCall>, ns: Name, id: Name)
    requires Lawful(json) && forall j :: 0 <= j < |calls| ==> CleanName(calls[j].uuid)
    requires forall j :: 0 <= j < |calls| ==> !Stores(disk, limit, json, calls, j, ns, id)
    ensures BlobAt(RunPuts(disk, limit, json, calls), json, ns, id) == BlobAt(disk, json, ns, id)
  {
    hide BlobAt, PutOn;
    if calls != [] {
      var n := |calls| - 1;
      LastOrEarlier(disk, limit, json, calls, ns, id);
      hide RunPuts;
      forall j | 0 <= j < n
        ensures Stores(disk, limit, json, calls[..n], j, ns, id) == Stores(disk, limit, json, calls, j, ns, id)
      {
        StoresInFront(disk, limit, json, calls, j, n, ns, id);
      }
      hide Stores;
      NoPutKeeps(disk, limit, json, calls[..n], ns, id);
    }
  }

  /** The last call either stores under the key, or leaves it as the calls before did. */
  lemma LastOrEarlier(disk: Disk, limit: u64, json: Json, calls: seq<PutCall>, ns: Name, id: Name)
    requires Lawful(json) && calls != [] && CleanName(calls[|calls| - 1].uuid)
    ensures var n := |calls| - 1;
      BlobAt(RunPuts(disk, limit, json, calls), json, ns, id) ==
      if Stores(disk, limit, json, calls, n, ns, id) then Some(Blob(calls[n].data, calls[n].meta))
      else BlobAt(RunPuts(disk, limit, json, calls[..n]), json, ns, id)
  {
    hide PutOn;
    hide BlobAt;
    var n := |calls| - 1;
    PutStores(RunPuts(disk, limit, json, calls[..n]), limit, json, calls[n], ns, id);
  }

  lemma PutStores(disk: Disk, limit: u64, json: Json, c: PutCall, ns: Name, id: Name)
    requires Lawful(json) && CleanName(c.uuid)
    ensures var r := PutOn(disk, limit, json, c);
      BlobAt(r.disk, json, ns, id) ==
      if r.answer == Success(id) && Sanitize(c.namespace) == ns then Some(Blob(c.data, c.meta))
      else BlobAt(disk, json, ns, id)
  {
    PutSetsOneKey(disk, limit, json, c, ns, id);
    hide BlobAt;
  }

  /** Reading goes through the same map: a get returns the data of the blob under its sanitized key. */
  lemma GetReadsBlob(disk: Disk, json: Json, namespace: string, id: string)
    requires Sanitize(namespace) != "" && Sanitize(id) != ""
    ensures var b := BlobAt(disk, json, Sanitize(namespace), Sanitize(id));
      GetFrom(disk, namespace, id) == if b.Some? then Success(b.value.data) else Failure(NotFound)
  {
    SidecarsAreApart(Sanitize(id), Sanitize(id));
  }

  // ---- What a put answers, and what is read afterwards ----

  /** The call asks for an id that leaves something after sanitizing. */
  predicate AsksFor(c: PutCall, id: Name) {
    c.idHint.Some? && id != "" && Sanitize(c.idHint.value) == id
  }

  /** A put is taken if and only if its namespace leaves something after sanitizing and its bytes fit under the
      limit next to all files there are. It answers the sanitized id it was asked for, or else the generated
      one, and that id then reads back its bytes. */
  lemma PutAnswer(disk: Disk, limit: u64, json: Json, c: PutCall)
    requires CleanName(c.uuid)
    ensures var r := PutOn(disk, limit, json, c);
      && (r.answer.Success? <==>
            Sanitize(c.namespace) != "" && (limit == MAX64 || DiskSize(disk) + |c.data| <= limit))
      && (r.answer == Failure(LimitExceeded) <==> limit != MAX64 && DiskSize(disk) + |c.data| > limit)
      && (r.answer.Failure? ==> r.disk == disk && r.answer.why in {LimitExceeded, EmptyName})
      && (r.answer.Success? ==>
            && GetFrom(r.disk, c.namespace, r.answer.value) == Success(c.data)
            && (forall id :: AsksFor(c, id) ==> r.answer == Success(id))
            && ((forall id :: !AsksFor(c, id)) ==> r.answer == Success(c.uuid)))
  {
    hide DiskSize;
    var r, id := PutOn(disk, limit, json, c), IdOf(c);
    if r.answer.Success? {
      if c.idHint.Some? && Sanitize(c.idHint.value) != "" {
        assert AsksFor(c, Sanitize(c.idHint.value));
      }
      assert Sanitize(id) == id;
      SidecarsAreApart(id, id);
    }
  }

  /** What was uploaded under a hint is what the same hint fetches. */
  lemma HintFetches(disk: Disk, limit: u64, json: Json, c: PutCall)
    requires CleanName(c.uuid) && c.idHint.Some? && Sanitize(c.idHint.value) != ""
    ensures var r := PutOn(disk, limit, json, c);
      r.answer.Success? ==>
        r.answer == Success(Sanitize(c.idHint.value)) && GetFrom(r.disk, c.namespace, c.idHint.value) == Success(c.data)
  {
    PutAnswer(disk, limit, json, c);
    var id := Sanitize(c.idHint.value);
    assert AsksFor(c, id) && Sanitize(id) == id;
    hide PutOn, Sanitize;
  }

  /** Call number `i` is taken, in the namespace of `ns`, under the name that `id` stands for. */
  ghost predicate TakenFor(disk: Disk, limit: u64, json: Json, calls: seq<PutCall>, i: nat, ns: string, id: string)
    requires i < |calls|
  {
    var before := RunPuts(disk, limit, json, calls[..i]);
    && Sanitize(calls[i].namespace) == Sanitize(ns) != ""
    && (limit == MAX64 || DiskSize(before) + |calls[i].data| <= limit)
    && (AsksFor(calls[i], Sanitize(id)) || (calls[i].uuid == Sanitize(id) && forall x :: !AsksFor(calls[i], x)))
  }

  lemma TakenMeansStores(disk: Disk, limit: u64, json: Json, calls: seq<PutCall>, i: nat, ns: string, id: string)
    requires i < |calls| && CleanName(calls[i].uuid) && Sanitize(ns) != "" && Sanitize(id) != ""
    ensures TakenFor(disk, limit, json, calls, i, ns, id) <==>
            Stores(disk, limit, json, calls, i, Sanitize(ns), Sanitize(id))
  {
    var c := calls[i];
    PutAnswer(RunPuts(disk, limit, json, calls[..i]), limit, json, c);
    hide PutOn, DiskSize, RunPuts;
    if c.idHint.Some? && Sanitize(c.idHint.value) != "" {
      assert AsksFor(c, Sanitize(c.idHint.value));
    }
  }

  /** After any sequence of puts, reading a name fetches the bytes of the last put that was taken for it, or,
      when none was, what it fetched before. */
  lemma GetFetchesLast(disk: Disk, limit: u64, json: Json, calls: seq<PutCall>, ns: string, id: string)
    requires Lawful(json) && forall j :: 0 <= j < |calls| ==> CleanName(calls[j].uuid)
    requires Sanitize(ns) != "" && Sanitize(id) != ""
    ensures forall i :: 0 <= i < |calls| && TakenFor(disk, limit, json, calls, i, ns, id)
                        && (forall j :: i < j < |calls| ==> !TakenFor(disk, limit, json, calls, j, ns, id))
              ==> GetFrom(RunPuts(disk, limit, json, calls), ns, id) == Success(calls[i].data)
    ensures (forall i :: 0 <= i < |calls| ==> !TakenFor(disk, limit, json, calls, i, ns, id))
              ==> GetFrom(RunPuts(disk, limit, json, calls), ns, id) == GetFrom(disk, ns, id)
  {
    hide RunPuts, Stores, GetFrom, BlobAt;
    forall i | 0 <= i < |calls|
      ensures TakenFor(disk, limit, json, calls, i, ns, id) <==>
              Stores(disk, limit, json, calls, i, Sanitize(ns), Sanitize(id))
    {
      TakenMeansStores(disk, limit, json, calls, i, ns, id);
    }
    hide TakenFor, Sanitize;
    GetReadsBlob(RunPuts(disk, limit, json, calls), json, ns, id);
    GetReadsBlob(disk, json, ns, id);
    forall i | 0 <= i < |calls| && TakenFor(disk, limit, json, calls, i, ns, id)
               && (forall j :: i < j < |calls| ==> !TakenFor(disk, limit, json, calls, j, ns, id))
      ensures GetFrom(RunPuts(disk, limit, json, calls), ns, id) == Success(calls[i].data)
    {
      LastPutWins(disk, limit, json, calls, i, Sanitize(ns), Sanitize(id));
    }
    if forall i :: 0 <= i < |calls| ==> !TakenFor(disk, limit, json, calls, i, ns, id) {
      NoPutKeeps(disk, limit, json, calls, Sanitize(ns), Sanitize(id));
    }
  }

  /** A get is refused for a name of which sanitizing leaves nothing, and otherwise looks for the file. */
  lemma GetAnswer(disk: Disk, namespace: string, id: string)
    ensures var r, ns, name := GetFrom(disk, namespace, id), Sanitize(namespace), Sanitize(id);
      && (r == Failure(EmptyName) <==> namespace == "" || id == "")
      && (r.Success? <==> namespace != "" && id != "" && ns in disk && name in disk[ns])
      && (r.Success? ==> r.value == disk[ns][name])
      && (r.Failure? ==> r.why in {EmptyName, NotFound})
  {
  }

  /** A blob whose sidecar is missing or unreadable counts as a single copy of nobody's. */
  lemma NoSidecarNoDemands(disk: Disk, json: Json, ns: Name, id: Name)
    requires ns in disk && (MetaName(id) in disk[ns] ==> json.parse(disk[ns][MetaName(id)]) == None)
    ensures var b := BlobAt(disk, json, ns, id); b.Some? ==> b.value.meta == BlobMeta(1, None)
  {
  }

  // ---- Listing ----

  /** The second in which the file system says that a file was created, or 0 when it does not say. */
  type Creation = (Name, Name) -> u64

  datatype IndexEntry = IndexEntry(
    uploader: Option<string>, id: Name, namespace: Name, size: nat, createdAt: u64, minReplication: u8)

  function EntryFor(ns: Name, id: Name, b: Blob, created: Creation): IndexEntry {
    IndexEntry(b.meta.uploader, id, ns, |b.data|, created(ns, id), b.meta.minReplication)
  }

  /** Exactly one entry, the right one, for each blob of the namespaces in `scope`. */
  ghost predicate Lists(disk: Disk, json: Json, created: Creation, scope: set<Name>, entries: seq<IndexEntry>) {
    && (forall i :: 0 <= i < |entries| ==>
          var e := entries[i];
          var b := BlobAt(disk, json, e.namespace, e.id);
          e.namespace in scope && b.Some? && e == EntryFor(e.namespace, e.id, b.value, created))
    && (forall i, j :: 0 <= i < j < |entries| ==>
          entries[i].namespace != entries[j].namespace || entries[i].id != entries[j].id)
    && (forall ns, id :: ns in scope && BlobAt(disk, json, ns, id).Some? ==>
          exists i :: 0 <= i < |entries| && entries[i].namespace == ns && entries[i].id == id)
  }

  // ---- The store object ----

  class Storage {
    const limit: u64
    const json: Json
    var disk: Disk

    constructor (limit: u64, json: Json)
      ensures this.limit == limit && this.json == json && disk == map[]
    {
      this.limit, this.json, disk := limit, json, map[];
    }

    /** Files come in no particular order. */
    method SizeOfDir(dir: Dir) returns (total: nat)
      ensures total == DirSize(dir)
    {
      total := 0;
      var left := dir;
      while left != map[]
        invariant left.Keys <= dir.Keys && forall f :: f in left ==> left[f] == dir[f]
        invariant total + DirSize(left) == DirSize(dir)
        decreases |left|
      {
        var f :| f in left;
        TotalRemove(FileSizes(left), f);
        assert FileSizes(left - {f}) == FileSizes(left) - {f};
        total := total + |left[f]|;
        left := left - {f};
      }
    }

    method TotalSize() returns (total: nat)
      ensures total == DiskSize(disk)
    {
      total := 0;
      var left := disk;
      while left != map[]
        invariant left.Keys <= disk.Keys && forall ns :: ns in left ==> left[ns] == disk[ns]
        invariant total + DiskSize(left) == DiskSize(disk)
        decreases |left|
      {
        var ns :| ns in left;
        TotalRemove(DirSizes(left), ns);
        assert DirSizes(left - {ns}) == DirSizes(left) - {ns};
        var size := SizeOfDir(left[ns]);
        total := total + size;
        left := left - {ns};
      }
    }

    method Put(c: PutCall) returns (answer: Answer<Name>)
      modifies this
      ensures PutResult(disk, answer) == PutOn(old(disk), limit, json, c)
    {
      var current := TotalSize();
      var newTotal := Saturate(current + |c.data|);
      if newTotal > limit {
        return Failure(LimitExceeded);
      }
      var ns := Sanitize(c.namespace);
      if ns == "" {
        return Failure(EmptyName);
      }
      if ns !in disk {
        disk := disk[ns := map[]];
      }
      var id := c.uuid;
      if c.idHint.Some? && Sanitize(c.idHint.value) != "" {
        id := Sanitize(c.idHint.value);
      }
      disk := disk[ns := disk[ns][id := c.data]];
      disk := disk[ns := disk[ns][MetaName(id) := json.render(c.meta)]];
      return Success(id);
    }

    method Get(namespace: string, id: string) returns (answer: Answer<Bytes>)
      ensures answer == GetFrom(disk, namespace, id)
    {
      var ns := Sanitize(namespace);
      var name := Sanitize(id);
      if ns == "" || name == "" {
        return Failure(EmptyName);
      }
      if ns !in disk || name !in disk[ns] {
        return Failure(NotFound);
      }
      return Success(disk[ns][name]);
    }

    /** Appends the entries of one namespace, skipping sidecars. */
    method ListInDir(ns: Name, created: Creation, ghost scope: set<Name>, out: seq<IndexEntry>)
      returns (entries: seq<IndexEntry>)
      requires ns in disk && ns !in scope
      requires Lists(disk, json, created, scope, out)
      ensures Lists(disk, json, created, scope + {ns}, entries)
    {
      entries := out;
      var left := disk[ns].Keys;
      while left != {}
        invariant left <= disk[ns].Keys
        invariant ListsPart(disk, json, created, scope, ns, disk[ns].Keys - left, entries)
        decreases |left|
      {
        var name :| name in left;
        left := left - {name};
        ghost var before := entries;
        if !IsMeta(name) {
          var meta := ReadMeta(disk[ns], name, json);
          var size, createdAt := |disk[ns][name]|, created(ns, name);
          entries := entries + [IndexEntry(meta.uploader, name, ns, size, createdAt, meta.minReplication)];
        }
        ListsNext(disk, json, created, scope, ns, disk[ns].Keys - left - {name}, name, before, entries);
        assert disk[ns].Keys - left == disk[ns].Keys - left - {name} + {name};
      }
      assert disk[ns].Keys - left == disk[ns].Keys;
    }

    method List(namespace: Option<string>, created: Creation) returns (entries: seq<IndexEntry>)
      ensures Lists(disk, json, created,
                    if namespace.Some? then {Sanitize(namespace.value)} - {""} else disk.Keys, entries)
    {
      entries := [];
      if namespace.Some? {
        var ns := Sanitize(namespace.value);
        if ns == "" {
          assert {ns} - {""} == {};
          return;
        }
        assert {ns} - {""} == {} + {ns};
        if ns in disk {
          entries := ListInDir(ns, created, {}, entries);
        }
        return;
      }
      var left := disk.Keys;
      while left != {}
        invariant left <= disk.Keys
        invariant Lists(disk, json, created, disk.Keys - left, entries)
        decreases |left|
      {
        var ns :| ns in left;
        entries := ListInDir(ns, created, disk.Keys - left, entries);
        assert disk.Keys - (left - {ns}) == disk.Keys - left + {ns};
        left := left - {ns};
      }
      assert disk.Keys - left == disk.Keys;
    }
  }

  /** The namespaces in `scope` are listed, and of namespace `ns` the files in `done`. */
  ghost predicate ListsPart(disk: Disk, json: Json, created: Creation, scope: set<Name>, ns: Name, done: set<Name>,
                            entries: seq<IndexEntry>) {
    && (forall i :: 0 <= i < |entries| ==>
          var e := entries[i];
          var b := BlobAt(disk, json, e.namespace, e.id);
          && (e.namespace in scope || (e.namespace == ns && e.id in done))
          && b.Some? && e == EntryFor(e.namespace, e.id, b.value, created))
    && (forall i, j :: 0 <= i < j < |entries| ==>
          entries[i].namespace != entries[j].namespace || entries[i].id != entries[j].id)
    && (forall m, id :: (m in scope || (m == ns && id in done)) && BlobAt(disk, json, m, id).Some? ==>
          exists i :: 0 <= i < |entries| && entries[i].namespace == m && entries[i].id == id)
  }

  lemma ListsNext(disk: Disk, json: Json, created: Creation, scope: set<Name>, ns: Name, done: set<Name>, name: Name,
                  before: seq<IndexEntry>, after: seq<IndexEntry>)
    requires ns in disk && ns !in scope && name in disk[ns] && name !in done
    requires ListsPart(disk, json, created, scope, ns, done, before)
    requires after == if IsMeta(name) then before
                      else before + [EntryFor(ns, name, BlobAt(disk, json, ns, name).value, created)]
    ensures ListsPart(disk, json, created, scope, ns, done + {name}, after)
  {
    forall m, id | (m in scope || (m == ns && id in done + {name})) && BlobAt(disk, json, m, id).Some?
      ensures exists i :: 0 <= i < |after| && after[i].namespace == m && after[i].id == id
    {
      if m == ns && id == name {
        assert after[|before|].id == name;
      } else {
        var i :| 0 <= i < |before| && before[i].namespace == m && before[i].id == id;
        assert after[i] == before[i];
      }
    }
  }
}
