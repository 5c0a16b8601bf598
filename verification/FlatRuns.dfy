/** Runs on the datastore with any names in the calls: which of them keep the ledger, and that rewards are
    conserved in all of them. */
module FlatRuns {
  import opened Words
  import opened Records
  import opened Registry
  import opened Runs
  import opened Wire
  import opened Keys
  import opened FlatStore
  import opened Aliases
  import opened Ledger
  import opened History
  import opened Rewards

  /** Under such an address the contract stores blank nodes; no caller has one. */
  predicate Blank(a: Text) {
    a == EMPTY || !Unreadable(a)
  }

  /** The nodes have clear names, the index can be stored, and blank nodes have nothing to earn or to claim. */
  ghost predicate Tidy(s: State) {
    && (forall a :: a in s.nodes ==> ClearName(a))
    && ListStorable(s.nodeIndex)
    && (forall a :: a in s.nodes && Blank(a) ==> s.nodes[a].allocatedGb == 0 && s.nodes[a].pendingRewards == 0)
  }

  lemma ContentIsReadable(xs: seq<Text>)
    requires xs != [] && EncodableList(xs)
    ensures !Unreadable(Text(Content(xs)))
  {
    hide EncodeText, NextText, Content;
    var t, rest := xs[0], Content(xs[1..]);
    assert Encodable(t) && xs == [t] + xs[1..];
    ContentFront(t, xs[1..]);
    TextAt(t, [], rest);
    assert [] + EncodeText(t) + rest == Content(xs);
  }

  lemma AliasIsBlank(s: State, a: Text)
    requires EncodableList(s.nodeIndex) && Aliased(s, a)
    ensures Blank(AliasAddress(s, a))
  {
    IndexIsNoSlotName();
    hide Unreadable, EncodableList, Content, Ascii, Decimal;
    if AliasAddress(s, a) != EMPTY {
      ContentIsReadable(s.nodeIndex);
    }
  }

  // ---- What every call keeps ----

  lemma NothingForBlank(nodes: map<Text, Node>, rate: u64, a: Text)
    requires a in nodes && nodes[a].allocatedGb == 0
    ensures !Eligible(nodes, rate, a)
  {
    assert 0 * rate == 0;
    WrapSmall(0);
  }

  lemma DistributionKeepsTidy(s: State, env: Env, period: u64, addresses: seq<Text>)
    requires Tidy(s) && OnDistributeRewards(s, env, period, addresses).Done?
    ensures Tidy(OnDistributeRewards(s, env, period, addresses).next)
  {
    hide Blank, ClearName, ListStorable, Eligible;
    var rate := s.config.rewardPerGbPerPeriod;
    PayEffect(s.nodes, rate, period, addresses, |addresses|);
    forall a | a in s.nodes && Blank(a)
      ensures !Eligible(s.nodes, rate, a)
    {
      NothingForBlank(s.nodes, rate, a);
    }
  }

  lemma NodeCallKeepsTidy(s: State, env: Env, b: nat, op: Op)
    requires Tidy(s) && Manageable(s, env, op) && Step(s, env, b, op).Done?
    requires IsNodeCall(op)
    ensures Tidy(Step(s, env, b, op).next)
  {
    hide Wrap, ListStorable, ClearName, Encodable, Unreadable;
  }

  lemma ChallengeCallKeepsTidy(s: State, env: Env, b: nat, op: Op)
    requires Tidy(s) && Step(s, env, b, op).Done?
    requires IsChallengeCall(op) || op.ClaimRewards?
    ensures Tidy(Step(s, env, b, op).next)
  {
    hide Wrap, ListStorable, ClearName, Blank;
  }

  lemma OtherCallKeepsTidy(s: State, env: Env, b: nat, op: Op)
    requires Tidy(s) && Step(s, env, b, op).Done?
    requires !IsNodeCall(op) && !IsChallengeCall(op) && !op.ClaimRewards? && !op.DistributeRewards?
    ensures Tidy(Step(s, env, b, op).next)
  {
    assert Step(s, env, b, op).next.nodes == s.nodes && Step(s, env, b, op).next.nodeIndex == s.nodeIndex;
    hide Step, ListStorable, ClearName, Blank;
  }

  lemma StrayKeepsTidy(s: State, env: Env, b: nat, op: Op)
    requires Tidy(s) && op.IssueChallenge? && Strays(s, env, op)
    ensures Tidy(FlatStep(s, env, b, op).next)
  {
    AliasIsStorable(s, op.nodeAddress);
    hide Wrap, ListStorable, ClearName, Blank, Aliased, AliasAddress;
  }

  /** A call that does not stray does on the datastore what it does to the typed contract. */
  lemma StraightStep(s: State, env: Env, b: nat, op: Op)
    requires ListStorable(s.nodeIndex)
    ensures !Strays(s, env, op) ==> FlatStep(s, env, b, op) == Step(s, env, b, op)
    ensures Strays(s, env, op) && !op.IssueChallenge? ==> FlatStep(s, env, b, op).Reverted?
  {
    DepartsIffStrays(s, env, b, op);
    hide FlatStep, Step;
  }

  lemma CallKeepsTidy(s: State, env: Env, b: nat, op: Op)
    requires Tidy(s) && Manageable(s, env, op) && FlatStep(s, env, b, op).Done?
    ensures Tidy(FlatStep(s, env, b, op).next)
  {
    hide FlatStep, Step, Strays, Manageable, ListStorable;
    StraightStep(s, env, b, op);
    if Strays(s, env, op) {
      StrayKeepsTidy(s, env, b, op);
    } else if IsNodeCall(op) {
      NodeCallKeepsTidy(s, env, b, op);
    } else if op.DistributeRewards? {
      DistributionIsOne(s, env, b, op);
      DistributionKeepsTidy(s, env, op.period, op.addresses);
    } else if IsChallengeCall(op) || op.ClaimRewards? {
      ChallengeCallKeepsTidy(s, env, b, op);
    } else {
      OtherCallKeepsTidy(s, env, b, op);
    }
  }

  lemma DistributionIsOne(s: State, env: Env, b: nat, op: Op)
    requires op.DistributeRewards?
    ensures Step(s, env, b, op) == OnDistributeRewards(s, env, op.period, op.addresses)
  {
  }

  lemma EventKeepsTidy(w: World, ev: Event)
    requires Tidy(w.s) && (ev.Invoke? ==> Manageable(w.s, ev.env, ev.op))
    ensures Tidy(FlatAdvance(w, ev).s)
  {
    hide Tidy, Manageable, FlatStep;
    if ev.Invoke? && FlatAttempt(w, ev.env, ev.op).Done? {
      CallKeepsTidy(w.s, ev.env, w.balance + ev.env.coins, ev.op);
    }
  }

  lemma StartsTidy(admin: Text, config: Option<Config>)
    ensures Tidy(Deploy(admin, config))
  {
    assert Content([]) == [];
  }

  lemma ManageableFront(w: World, evs: seq<Event>)
    requires ManageableRun(w, evs) && evs != []
    ensures ManageableRun(w, evs[..|evs| - 1])
  {
    hide Manageable, FlatRun;
    var n := |evs| - 1;
    forall i | 0 <= i < n && evs[..n][i].Invoke?
      ensures Manageable(FlatRun(w, evs[..n][..i]).s, evs[..n][i].env, evs[..n][i].op)
    {
      assert evs[..n][..i] == evs[..i];
    }
  }

  // ---- The ledger ----

  /** Event number `i` issues a challenge for an alias. */
  ghost predicate StraysAt(w: World, evs: seq<Event>, i: nat)
    requires i < |evs|
  {
    evs[i].Invoke? && evs[i].op.IssueChallenge? && Strays(FlatRun(w, evs[..i]).s, evs[i].env, evs[i].op)
  }

  /** Some challenge names no provider, and no provider can ever have its name. */
  ghost predicate Broken(s: State) {
    exists id :: id in s.challenges && !ClearName(s.challenges[id].nodeAddress)
  }

  lemma BrokenLedger(s: State)
    requires Tidy(s) && Broken(s)
    ensures !LedgerInv(s)
  {
  }

  lemma StrayBreaks(s: State, env: Env, b: nat, op: Op)
    requires op.IssueChallenge? && Strays(s, env, op)
    ensures FlatStep(s, env, b, op).Done? && Broken(FlatStep(s, env, b, op).next)
  {
    if ClearName(op.nodeAddress) {
      ClearIsNotAliased(s, op.nodeAddress);
    }
    hide Wrap, Aliased, AliasAddress, ClearName;
    assert FlatStep(s, env, b, op).next.challenges[op.id].nodeAddress == op.nodeAddress;
  }

  lemma StaysBroken(s: State, env: Env, b: nat, op: Op)
    requires Broken(s) && Step(s, env, b, op).Done?
    ensures Broken(Step(s, env, b, op).next)
  {
    ChallengesSettle(s, env, b, op);
    hide Step, ClearName;
    var id :| id in s.challenges && !ClearName(s.challenges[id].nodeAddress);
    assert id in Step(s, env, b, op).next.challenges;
  }

  /** How the ledger stands after one more event. */
  lemma EventLedger(w: World, ev: Event)
    requires Tidy(w.s)
    ensures var stray := ev.Invoke? && ev.op.IssueChallenge? && Strays(w.s, ev.env, ev.op);
      var s' := FlatAdvance(w, ev).s;
      && (stray || Broken(w.s) ==> Broken(s'))
      && (!stray && LedgerInv(w.s) ==> LedgerInv(s'))
  {
    hide Broken, LedgerInv, FlatStep, Step, Strays;
    if ev.Invoke? {
      var b := w.balance + ev.env.coins;
      StraightStep(w.s, ev.env, b, ev.op);
      if Strays(w.s, ev.env, ev.op) {
        if ev.op.IssueChallenge? {
          StrayBreaks(w.s, ev.env, b, ev.op);
        }
      } else if Step(w.s, ev.env, b, ev.op).Done? {
        if Broken(w.s) {
          StaysBroken(w.s, ev.env, b, ev.op);
        }
        if LedgerInv(w.s) {
          LedgerStep(w.s, ev.env, b, ev.op);
        }
      }
    }
  }

  lemma {:induction false} RunLedger(admin: Text, config: Option<Config>, evs: seq<Event>)
    requires ManageableRun(Genesis(admin, config), evs)
    ensures var w0 := Genesis(admin, config);
      var s := FlatRun(w0, evs).s;
      && Tidy(s)
      && ((exists i :: 0 <= i < |evs| && StraysAt(w0, evs, i)) ==> Broken(s))
      && ((forall i :: 0 <= i < |evs| ==> !StraysAt(w0, evs, i)) ==> LedgerInv(s))
  {
    hide Broken, LedgerInv, Tidy, FlatAdvance, Strays, Manageable;
    var w0 := Genesis(admin, config);
    if evs == [] {
      StartsTidy(admin, config);
      LedgerHolds(admin, config, []);
    } else {
      var n := |evs| - 1;
      var front := evs[..n];
      ManageableFront(w0, evs);
      RunLedger(admin, config, front);
      EventKeepsTidy(FlatRun(w0, front), evs[n]);
      EventLedger(FlatRun(w0, front), evs[n]);
      forall i | 0 <= i < n
        ensures StraysAt(w0, front, i) == StraysAt(w0, evs, i)
      {
        assert front[..i] == evs[..i];
      }
      assert StraysAt(w0, evs, n) <==>
             evs[n].Invoke? && evs[n].op.IssueChallenge? && Strays(FlatRun(w0, front).s, evs[n].env, evs[n].op);
      hide StraysAt;
      if forall i :: 0 <= i < |evs| ==> !StraysAt(w0, evs, i) {
        assert forall i :: 0 <= i < |front| ==> !StraysAt(w0, front, i);
      }
    }
  }

  /** A run on the datastore ends with the ledger in order if and only if no challenge in it was issued for an
      alias: one such call breaks it for good. */
  lemma {:induction false} LedgerIffNoneStrays(admin: Text, config: Option<Config>, evs: seq<Event>)
    requires ManageableRun(Genesis(admin, config), evs)
    ensures var w0 := Genesis(admin, config);
      LedgerInv(FlatRun(w0, evs).s) <==> forall i :: 0 <= i < |evs| ==> !StraysAt(w0, evs, i)
  {
    hide LedgerInv, FlatRun, StraysAt, ManageableRun, Broken, Tidy;
    RunLedger(admin, config, evs);
    var s := FlatRun(Genesis(admin, config), evs).s;
    if Broken(s) {
      BrokenLedger(s);
    }
  }

  // ---- Rewards ----

  /** What one event grants on the datastore, without wrapping. */
  ghost function FlatGrantedBy(w: World, ev: Event): nat {
    if ev.Invoke? && ev.op.DistributeRewards? && FlatAttempt(w, ev.env, ev.op).Done?
    then Granted(w.s.nodes, w.s.config.rewardPerGbPerPeriod, ev.op.addresses, |ev.op.addresses|)
    else 0
  }

  ghost function FlatGrantedOver(w: World, evs: seq<Event>): nat {
    if evs == [] then 0
    else var front := evs[..|evs| - 1];
         FlatGrantedOver(w, front) + FlatGrantedBy(FlatRun(w, front), evs[|evs| - 1])
  }

  /** A challenge for an alias puts a blank node where there was none or a blank one. */
  lemma StrayLeavesRewards(s: State, env: Env, b: nat, op: Op)
    requires Tidy(s) && op.IssueChallenge? && Strays(s, env, op)
    ensures var r := FlatStep(s, env, b, op); r.Done? && r.paid == 0 && RewardsUntouched(s, r.next)
  {
    AliasIsBlank(s, op.nodeAddress);
    hide Wrap, ListStorable, ClearName, Blank, Aliased, AliasAddress;
  }

  lemma UntouchedConserves(w: World, ev: Event, granted: nat)
    requires Conserved(w, granted) && ev.Invoke? && ev.op.IssueChallenge?
    requires var r := FlatAttempt(w, ev.env, ev.op); r.Done? && r.paid == 0 && RewardsUntouched(w.s, r.next)
    ensures Conserved(FlatAdvance(w, ev), granted + FlatGrantedBy(w, ev))
  {
    hide FlatStep, Tracks, Pending, Distributed;
    UntouchedSums(w.s, FlatAttempt(w, ev.env, ev.op).next);
  }

  lemma StraightEvent(w: World, ev: Event)
    requires ev.Invoke? ==> FlatAttempt(w, ev.env, ev.op) == Attempt(w, ev.env, ev.op)
    ensures FlatAdvance(w, ev) == Advance(w, ev) && FlatGrantedBy(w, ev) == GrantedBy(w, ev)
  {
    hide FlatAttempt, Attempt;
  }

  lemma RefusedEvent(w: World, ev: Event)
    requires ev.Invoke? && FlatAttempt(w, ev.env, ev.op).Reverted?
    ensures FlatAdvance(w, ev) == w && FlatGrantedBy(w, ev) == 0
  {
    hide FlatAttempt;
  }

  lemma FlatEventConserves(w: World, ev: Event, granted: nat)
    requires Conserved(w, granted) && Tidy(w.s)
    ensures Conserved(FlatAdvance(w, ev), granted + FlatGrantedBy(w, ev))
  {
    hide FlatStep, Step, Strays, Conserved, Tidy, FlatAdvance, Advance, FlatGrantedBy, GrantedBy;
    if ev.Invoke? {
      var b := w.balance + ev.env.coins;
      assert ListStorable(w.s.nodeIndex) by { TidyIndex(w.s); }
      StraightStep(w.s, ev.env, b, ev.op);
      if Strays(w.s, ev.env, ev.op) {
        if ev.op.IssueChallenge? {
          StrayLeavesRewards(w.s, ev.env, b, ev.op);
          UntouchedConserves(w, ev, granted);
        } else {
          RefusedEvent(w, ev);
        }
        return;
      }
    }
    StraightEvent(w, ev);
    EventConserves(w, ev, granted);
  }

  lemma TidyIndex(s: State)
    requires Tidy(s)
    ensures ListStorable(s.nodeIndex)
  {
  }

  lemma {:induction false} FlatRunConserves(admin: Text, config: Option<Config>, evs: seq<Event>)
    requires ManageableRun(Genesis(admin, config), evs)
    ensures var w0 := Genesis(admin, config);
      Tidy(FlatRun(w0, evs).s) && Conserved(FlatRun(w0, evs), FlatGrantedOver(w0, evs))
  {
    hide Conserved, Tidy, FlatAdvance, Manageable, FlatGrantedBy;
    var w0 := Genesis(admin, config);
    StartsTidy(admin, config);
    StartsConserved(admin, config);
    if evs != [] {
      var n := |evs| - 1;
      ManageableFront(w0, evs);
      FlatRunConserves(admin, config, evs[..n]);
      EventKeepsTidy(FlatRun(w0, evs[..n]), evs[n]);
      FlatEventConserves(FlatRun(w0, evs[..n]), evs[n], FlatGrantedOver(w0, evs[..n]));
    }
  }

  /** Conservation over every run on the datastore, whatever names its calls carry. */
  lemma {:induction false} FlatRewardsAreConserved(admin: Text, config: Option<Config>, evs: seq<Event>)
    requires ManageableRun(Genesis(admin, config), evs)
    ensures var w, granted := FlatRun(Genesis(admin, config), evs), FlatGrantedOver(Genesis(admin, config), evs);
      && Cong(Pending(w.s.nodes) + w.claimed, Distributed(w.s.periods))
      && (granted < TWO64 ==> Pending(w.s.nodes) + w.claimed == Distributed(w.s.periods) == granted)
      && w.claimed <= w.received
  {
    FlatRunConserves(admin, config, evs);
    hide FlatRun, FlatGrantedOver, ManageableRun, Tidy;
    ConservedMeans(FlatRun(Genesis(admin, config), evs), FlatGrantedOver(Genesis(admin, config), evs));
  }
}
