/** Usage accounting per uploader, in closed form, and what a pause freezes. */
module Usage {
  import opened Words
  import opened Records
  import opened Registry
  import opened Runs
  import opened Bookings

  // ---- Usage ----

  /** What one event records for uploader `u`: its size, minus its size on removal, or nothing. */
  function EntryBy(w: World, ev: Event, u: Text): seq<int> {
    if ev.Invoke? && Attempt(w, ev.env, ev.op).Done? then
      match ev.op
      case RecordFileUpload(v, size) => if v == u then [size] else []
      case RemoveFileUpload(v, size) => if v == u then [-(size as int)] else []
      case _ => []
    else []
  }

  function Log(w: World, evs: seq<Event>, u: Text): seq<int> {
    if evs == [] then []
    else var front := evs[..|evs| - 1];
         Log(w, front, u) + EntryBy(Run(w, front), evs[|evs| - 1], u)
  }

  /** Net size of the entries from `i` up to, not including, `j`. */
  function Net(log: seq<int>, i: nat, j: nat): int
    requires i <= j <= |log|
  {
    if i == j then 0 else Net(log, i, j - 1) + log[j - 1]
  }

  /** `m` is the largest net size of a suffix of the log; the empty suffix counts 0. */
  ghost predicate IsLargestSuffix(log: seq<int>, m: int) {
    && (exists i :: 0 <= i <= |log| && Net(log, i, |log|) == m)
    && (forall i :: 0 <= i <= |log| ==> Net(log, i, |log|) <= m)
  }

  /** No stretch of the log is larger than a word. */
  ghost predicate FitsWord(log: seq<int>) {
    forall i, j :: 0 <= i <= j <= |log| ==> Net(log, i, j) < TWO64
  }

  lemma {:induction false} NetPrefix(log: seq<int>, x: int, i: nat, j: nat)
    requires i <= j <= |log|
    ensures Net(log + [x], i, j) == Net(log, i, j)
  {
    if i < j {
      NetPrefix(log, x, i, j - 1);
    }
  }

  /** Appending an entry to the log: the largest suffix moves by the entry, but not below 0. */
  lemma LargestSuffixMoves(log: seq<int>, m: int, x: int)
    requires IsLargestSuffix(log, m)
    ensures IsLargestSuffix(log + [x], if m + x < 0 then 0 else m + x)
  {
    var n, log' := |log|, log + [x];
    forall i | 0 <= i <= n
      ensures Net(log', i, n + 1) == Net(log, i, n) + x
    {
      NetPrefix(log, x, i, n);
    }
    assert Net(log', n + 1, n + 1) == 0;
    forall i | 0 <= i <= |log'|
      ensures Net(log', i, |log'|) <= if m + x < 0 then 0 else m + x
    {
      if i <= n {
        assert Net(log, i, n) <= m;
      }
    }
    if m + x >= 0 {
      var i :| 0 <= i <= n && Net(log, i, n) == m;
      assert Net(log', i, n + 1) == m + x;
    }
  }

  lemma FitsPrefix(log: seq<int>, more: seq<int>)
    requires FitsWord(log + more)
    ensures FitsWord(log)
  {
    forall i, j | 0 <= i <= j <= |log|
      ensures Net(log, i, j) < TWO64
    {
      NetAppend(log, more, i, j);
      assert Net(log + more, i, j) < TWO64;
    }
  }

  lemma {:induction false} NetAppend(log: seq<int>, more: seq<int>, i: nat, j: nat)
    requires i <= j <= |log|
    ensures Net(log + more, i, j) == Net(log, i, j)
  {
    if i < j {
      NetAppend(log, more, i, j - 1);
    }
  }

  ghost predicate NoZero(usage: map<Text, u64>) {
    forall u :: u in usage ==> usage[u] > 0
  }

  /** How usage follows one entry of the log. */
  function Follow(usage: u64, entry: seq<int>): u64
    requires |entry| <= 1
    requires entry == [] || -TWO64 < entry[0] < TWO64
  {
    if entry == [] then usage
    else if entry[0] < 0 then (if usage + entry[0] < 0 then 0 else usage + entry[0])
    else Wrap(usage + entry[0])
  }

  lemma FollowNothing(usage: u64)
    ensures Follow(usage, []) == usage
  {
  }

  lemma UsageStep(w: World, ev: Event, u: Text)
    requires NoZero(w.s.usage)
    ensures NoZero(Advance(w, ev).s.usage)
    ensures var entry := EntryBy(w, ev, u);
      && |entry| <= 1
      && (entry == [] || -TWO64 < entry[0] < TWO64)
      && Advance(w, ev).s.Usage(u) == Follow(w.s.Usage(u), entry)
  {
    hide Follow;
    if ev.Invoke? && Attempt(w, ev.env, ev.op).Done? {
      match ev.op
      case RecordFileUpload(v, size) => RecordFollows(w.s, ev.env, v, size, u);
      case RemoveFileUpload(v, size) => RemoveFollows(w.s, ev.env, v, size, u);
      case _ =>
        OthersLeaveUsage(w.s, ev.env, w.balance + ev.env.coins, ev.op);
        FollowNothing(w.s.Usage(u));
    } else {
      FollowNothing(w.s.Usage(u));
    }
  }

  lemma RecordFollows(s: State, env: Env, v: Text, size: u64, u: Text)
    requires NoZero(s.usage) && OnRecordFileUpload(s, env, v, size).Done?
    ensures var s' := OnRecordFileUpload(s, env, v, size).next;
      && NoZero(s'.usage)
      && s'.Usage(u) == Follow(s.Usage(u), if v == u then [size] else [])
  {
    hide Wrap;
  }

  lemma RemoveFollows(s: State, env: Env, v: Text, size: u64, u: Text)
    requires NoZero(s.usage) && OnRemoveFileUpload(s, env, v, size).Done?
    ensures var s' := OnRemoveFileUpload(s, env, v, size).next;
      && NoZero(s'.usage)
      && s'.Usage(u) == Follow(s.Usage(u), if v == u then [-(size as int)] else [])
  {
    hide Wrap;
  }

  lemma OthersLeaveUsage(s: State, env: Env, b: nat, op: Op)
    requires !op.RecordFileUpload? && !op.RemoveFileUpload? && Step(s, env, b, op).Done?
    ensures Step(s, env, b, op).next.usage == s.usage
  {
  }

  /** An uploader's usage is the largest net size of a suffix of its own records and removals, whatever
      happens to others; and its key is absent from the datastore exactly when its usage is 0. */
  lemma {:induction false} UsageIsLargestSuffix(admin: Text, config: Option<Config>, evs: seq<Event>, u: Text)
    requires FitsWord(Log(Genesis(admin, config), evs, u))
    ensures var s := Run(Genesis(admin, config), evs).s;
      && IsLargestSuffix(Log(Genesis(admin, config), evs, u), s.Usage(u))
      && NoZero(s.usage)
      && (u in s.usage <==> s.Usage(u) != 0)
  {
    hide Advance;
    hide EntryBy;
    var w0 := Genesis(admin, config);
    if evs == [] {
      assert Net([], 0, 0) == 0;
    } else {
      var front, ev := evs[..|evs| - 1], evs[|evs| - 1];
      var w, log := Run(w0, front), Log(w0, front, u);
      FitsPrefix(log, EntryBy(w, ev, u));
      UsageIsLargestSuffix(admin, config, front, u);
      UsageStep(w, ev, u);
      if EntryBy(w, ev, u) == [] {
        assert log + EntryBy(w, ev, u) == log;
      } else {
        var x := EntryBy(w, ev, u)[0];
        assert log + EntryBy(w, ev, u) == log + [x];
        LargestSuffixMoves(log, w.s.Usage(u), x);
        LargestFits(log + [x], if w.s.Usage(u) + x < 0 then 0 else w.s.Usage(u) + x);
        if x >= 0 {
          WrapSmall(w.s.Usage(u) + x);
        }
      }
    }
  }

  lemma LargestFits(log: seq<int>, m: int)
    requires IsLargestSuffix(log, m) && FitsWord(log)
    ensures 0 <= m < TWO64
  {
    assert Net(log, |log|, |log|) == 0;
    var i :| 0 <= i <= |log| && Net(log, i, |log|) == m;
  }

  // ---- Pause ----

  /** What a paused contract may still do to its state: deactivate nodes, expire challenges, and
      whatever does not concern nodes, bookings and usage. */
  ghost predicate Frozen(s: State, s': State) {
    && s'.nodes.Keys == s.nodes.Keys
    && (forall a :: a in s.nodes ==>
          && s'.nodes[a].(active := s.nodes[a].active) == s.nodes[a]
          && (s'.nodes[a].active ==> s.nodes[a].active))
    && s'.bookings == s.bookings
    && s'.uploaderIndex == s.uploaderIndex
    && s'.usage == s.usage
  }

  lemma PausedFreezes(s: State, env: Env, b: nat, op: Op)
    requires s.Paused() && Step(s, env, b, op).Done?
    ensures Frozen(s, Step(s, env, b, op).next)
    ensures Step(s, env, b, op).paid == 0
  {
    hide Wrap;
  }

  /** While the contract stays paused, rewards, allocations, counters, bookings and usage are frozen,
      nothing is paid out, and nodes can only become inactive. */
  lemma {:induction false} PausedRunFreezes(w: World, evs: seq<Event>)
    requires forall i :: 0 <= i <= |evs| ==> At(w, evs, i).s.Paused()
    ensures Frozen(w.s, Run(w, evs).s)
    ensures Run(w, evs).claimed == w.claimed
  {
    if evs != [] {
      var n := |evs| - 1;
      var front := evs[..n];
      forall i | 0 <= i <= n
        ensures At(w, front, i).s.Paused()
      {
        PrefixAt(w, evs, i);
        assert At(w, evs, i).s.Paused();
      }
      PausedRunFreezes(w, front);
      AtEnd(w, front);
      assert At(w, front, n).s.Paused();
      var v := Run(w, front);
      if evs[n].Invoke? && Attempt(v, evs[n].env, evs[n].op).Done? {
        PausedFreezes(v.s, evs[n].env, v.balance + evs[n].env.coins, evs[n].op);
      }
      hide Step;
    }
  }
}
