/** Uploader bookings: the first-occurrence loop, the uploader index, and booked against offered capacity. */
module Bookings {
  import opened Words
  import opened Records
  import opened Registry
  import opened Sums
  import opened Runs
  import opened NodeLists
  import opened PeriodTotals

  /** The bookings of the addresses in a list, once each. */
  ghost function BookingsOf(s: State, xs: seq<Text>): map<Text, int> {
    map a | a in xs :: s.Booked(a)
  }

  lemma OneMore(s: State, front: seq<Text>, a: Text)
    ensures Total(BookingsOf(s, front + [a])) ==
            Total(BookingsOf(s, front)) + if a in front then 0 else s.Booked(a)
  {
    if a in front {
      assert BookingsOf(s, front + [a]) == BookingsOf(s, front);
    } else {
      TotalPut(BookingsOf(s, front), a, s.Booked(a));
      assert BookingsOf(s, front + [a]) == BookingsOf(s, front)[a := s.Booked(a)];
    }
  }

  lemma LoopStep(s: State, n: nat)
    requires 0 < n <= |s.uploaderIndex|
    requires s.BookedUpTo(n - 1) == Wrap(Total(BookingsOf(s, s.uploaderIndex[..n - 1])))
    ensures s.BookedUpTo(n) == Wrap(Total(BookingsOf(s, s.uploaderIndex[..n])))
  {
    hide Wrap;
    hide BookingsOf;
    var front, a := s.uploaderIndex[..n - 1], s.uploaderIndex[n - 1];
    assert s.uploaderIndex[..n] == front + [a];
    OneMore(s, front, a);
    WrapAdd(Total(BookingsOf(s, front)), s.Booked(a));
    if a in front {
      assert s.BookedUpTo(n) == s.BookedUpTo(n - 1);
    } else {
      assert s.BookedUpTo(n) == Wrap(s.BookedUpTo(n - 1) + s.Booked(a));
    }
  }

  /** The quadratic loop counts each distinct address once, for any index, duplicates included. */
  lemma {:induction false} LoopCountsDistinct(s: State, n: nat)
    requires n <= |s.uploaderIndex|
    ensures s.BookedUpTo(n) == Wrap(Total(BookingsOf(s, s.uploaderIndex[..n])))
  {
    if n == 0 {
      assert BookingsOf(s, s.uploaderIndex[..0]) == map[];
      WrapSmall(0);
    } else {
      LoopCountsDistinct(s, n - 1);
      LoopStep(s, n);
    }
  }

  /** An address is in the index, once, exactly when it has booked something. */
  ghost predicate BookingInv(s: State) {
    && Distinct(s.uploaderIndex)
    && (forall a :: a in s.uploaderIndex <==> s.Booked(a) > 0)
    && (forall a :: a in s.bookings ==> a in s.uploaderIndex)
  }

  lemma BookKeepsIndex(s: State, env: Env, amountGb: u64)
    requires BookingInv(s) && OnRegisterAsUploader(s, env, amountGb).Done?
    ensures BookingInv(OnRegisterAsUploader(s, env, amountGb).next)
  {
    hide Wrap;
    var s' := OnRegisterAsUploader(s, env, amountGb).next;
    assert forall a :: s'.Booked(a) == if a == env.caller then amountGb else s.Booked(a);
    if env.caller !in s.uploaderIndex {
      AppendOne(s.uploaderIndex, env.caller);
    }
  }

  lemma OthersLeaveBookings(s: State, env: Env, b: nat, op: Op)
    requires !op.RegisterAsUploader? && Step(s, env, b, op).Done?
    ensures var s' := Step(s, env, b, op).next;
      s'.bookings == s.bookings && s'.uploaderIndex == s.uploaderIndex
  {
  }

  lemma BookingStep(s: State, env: Env, b: nat, op: Op)
    requires BookingInv(s) && Step(s, env, b, op).Done?
    ensures BookingInv(Step(s, env, b, op).next)
  {
    if op.RegisterAsUploader? {
      BookKeepsIndex(s, env, op.amountGb);
    } else {
      OthersLeaveBookings(s, env, b, op);
      hide Step;
      var s' := Step(s, env, b, op).next;
      assert forall a :: s'.Booked(a) == s.Booked(a);
    }
  }

  lemma {:induction false} BookingsHold(admin: Text, config: Option<Config>, evs: seq<Event>)
    ensures BookingInv(Run(Genesis(admin, config), evs).s)
  {
    assert BookingInv(Deploy(admin, config));
    hide BookingInv;
    hide Step;
    forall s, env, b, op | BookingInv(s) && Step(s, env, b, op).Done?
      ensures BookingInv(Step(s, env, b, op).next)
    {
      BookingStep(s, env, b, op);
    }
    Invariant(s => BookingInv(s), Genesis(admin, config), evs);
  }

  /** Capacity booked, without wrapping. */
  ghost function BookedTotal(s: State): int {
    Total(s.bookings)
  }

  lemma TotalBookedIsTotal(s: State)
    requires BookingInv(s)
    ensures s.TotalBooked() == Wrap(BookedTotal(s))
  {
    LoopCountsDistinct(s, |s.uploaderIndex|);
    assert s.uploaderIndex[..|s.uploaderIndex|] == s.uploaderIndex;
    assert BookingsOf(s, s.uploaderIndex) == s.bookings;
  }

  /** Whatever the caller had booked before, the contract checks the total it would end up with; and
      the subtraction inside never underflows while the total fits a word. */
  lemma CheckedTotalIsNext(s: State, caller: Text, amountGb: u64)
    requires BookingInv(s)
    ensures NewTotalBooked(s, caller, amountGb) == Wrap(Total(s.bookings[caller := amountGb]))
    ensures BookedTotal(s) < TWO64 ==> s.Booked(caller) <= s.TotalBooked()
  {
    TotalBookedIsTotal(s);
    TotalPut(s.bookings, caller, amountGb);
    TotalNonNegative(s.bookings);
    var total, was := BookedTotal(s), s.Booked(caller);
    WrapAdd(total, amountGb - was);
    WrapAdd(total, amountGb);
    if total < TWO64 {
      WrapSmall(total);
    }
  }

  /** What the total booked would be after the booking, without wrapping the result. */
  function TotalAfter(s: State, caller: Text, amountGb: u64): int {
    s.TotalBooked() - s.Booked(caller) + amountGb
  }

  lemma CheckedTotalWraps(s: State, caller: Text, amountGb: u64)
    requires BookingInv(s)
    ensures NewTotalBooked(s, caller, amountGb) == Wrap(TotalAfter(s, caller, amountGb))
  {
    assert caller in s.uploaderIndex || s.Booked(caller) == 0;
  }

  /** A number that is less than a word away from fitting one. */
  lemma WrapNear(x: int)
    requires -TWO64 < x < 2 * TWO64
    ensures Wrap(x) == if x < 0 then x + TWO64 else if x < TWO64 then x else x - TWO64
  {
    var k := if x < 0 then 1 else if x < TWO64 then 0 else -1;
    WrapPeriod(x, k);
    WrapSmall(x + TWO64 * k);
  }

  /** What a booking that is taken does to the total: it stays under the capacity on offer if and only if the
      caller asked for no more than a word has room for besides the bookings of others. */
  lemma BookingFits(s: State, env: Env, amountGb: u64)
    requires BookingInv(s) && IndexAgrees(s) && OnRegisterAsUploader(s, env, amountGb).Done?
    ensures var s' := OnRegisterAsUploader(s, env, amountGb).next;
      var others := BookedTotal(s) - s.Booked(env.caller);
      && s'.nodes == s.nodes
      && BookedTotal(s') == others + amountGb
      && (others + amountGb < TWO64 ==> BookedTotal(s') <= Allocation(s'.nodes))
      && (Allocation(s'.nodes) < TWO64 ==>
            (BookedTotal(s') <= Allocation(s'.nodes) <==> others + amountGb < TWO64))
  {
    TotalAllocatedIsAllocation(s);
    CheckedTotalIsNext(s, env.caller, amountGb);
    TotalPut(s.bookings, env.caller, amountGb);
    TotalNonNegative(AllocationOf(s.nodes));
    TotalNonNegative(s.bookings[env.caller := amountGb]);
    WrapAtMost(Allocation(s.nodes));
    if BookedTotal(s) - s.Booked(env.caller) + amountGb < TWO64 {
      WrapSmall(Total(s.bookings[env.caller := amountGb]));
    }
  }

  lemma WrapAtMost(x: nat)
    ensures Wrap(x) <= x
  {
  }

  /** The input behind that condition: who asks for exactly what a word still has room for, plus one, makes
      the contract check 0, so that it takes the booking whatever is on offer. */
  lemma BookingThatWraps(s: State, env: Env)
    requires BookingInv(s) && !s.Paused()
    requires 0 < BookedTotal(s) < TWO64 && s.Booked(env.caller) == 0
    requires env.coins >= Wrap((TWO64 - BookedTotal(s)) * s.uploaderPricePerGb)
    ensures var r := OnRegisterAsUploader(s, env, TWO64 - BookedTotal(s));
      r.Done? && BookedTotal(r.next) == TWO64
  {
    var amountGb: u64 := TWO64 - BookedTotal(s);
    CheckedTotalIsNext(s, env.caller, amountGb);
    TotalPut(s.bookings, env.caller, amountGb);
    WrapPeriod(0, 1);
    WrapSmall(0);
  }

  ghost function Max(x: int, y: int): int {
    if x < y then y else x
  }

  /** The highest capacity offered at any point of a run. */
  ghost function HighWater(w: World, evs: seq<Event>): int {
    if evs == [] then Allocation(w.s.nodes)
    else Max(HighWater(w, evs[..|evs| - 1]), Allocation(Run(w, evs).s.nodes))
  }

  /** If event number `i` asks for a booking, then for no more than a word has room for besides the highest
      capacity offered before. */
  ghost predicate LeavesRoom(w: World, evs: seq<Event>, i: nat)
    requires i < |evs|
  {
    evs[i].Invoke? && evs[i].op.RegisterAsUploader? ==> HighWater(w, evs[..i]) + evs[i].op.amountGb < TWO64
  }

  lemma EventBooks(w: World, ev: Event, high: int)
    requires BookingInv(w.s) && IndexAgrees(w.s) && BookedTotal(w.s) <= high
    requires ev.Invoke? && ev.op.RegisterAsUploader? ==> high + ev.op.amountGb < TWO64
    ensures var s' := Advance(w, ev).s; BookedTotal(s') <= Max(high, Allocation(s'.nodes))
  {
    hide BookingInv, IndexAgrees;
    if ev.Invoke? && Attempt(w, ev.env, ev.op).Done? {
      if ev.op.RegisterAsUploader? {
        BookingFits(w.s, ev.env, ev.op.amountGb);
      } else {
        OthersLeaveBookings(w.s, ev.env, w.balance + ev.env.coins, ev.op);
        hide Step;
      }
    }
  }

  lemma PrefixAt(w: World, evs: seq<Event>, i: nat)
    requires evs != [] && i < |evs|
    ensures At(w, evs[..|evs| - 1], i) == At(w, evs, i)
  {
    assert evs[..|evs| - 1][..i] == evs[..i];
  }

  lemma RoomInFront(w: World, evs: seq<Event>, i: nat)
    requires i < |evs| - 1
    ensures LeavesRoom(w, evs[..|evs| - 1], i) == LeavesRoom(w, evs, i)
  {
    assert evs[..|evs| - 1][..i] == evs[..i];
  }

  /** As long as every request leaves room, what is booked never exceeds the highest capacity offered so far. */
  lemma {:induction false} BookedUnderHighWater(admin: Text, config: Option<Config>, evs: seq<Event>)
    requires forall i :: 0 <= i < |evs| ==> LeavesRoom(Genesis(admin, config), evs, i)
    ensures BookedTotal(Run(Genesis(admin, config), evs).s) <= HighWater(Genesis(admin, config), evs)
  {
    hide Advance;
    var w0 := Genesis(admin, config);
    if evs == [] {
      assert AllocationOf(w0.s.nodes) == map[];
    } else {
      var n := |evs| - 1;
      var front := evs[..n];
      forall i | 0 <= i < n
        ensures LeavesRoom(w0, front, i)
      {
        RoomInFront(w0, evs, i);
      }
      BookedUnderHighWater(admin, config, front);
      BookingsHold(admin, config, front);
      ListsHold(admin, config, front);
      assert LeavesRoom(w0, evs, n);
      hide ListsInv, BookingInv, IndexAgrees;
      ListsGiveIndex(Run(w0, front).s);
      EventBooks(Run(w0, front), evs[n], HighWater(w0, front));
    }
  }

  const HALF: int := 0x8000_0000_0000_0000

  /** Capacities and requests below 2^63 leave room. */
  lemma {:induction false} SmallLeavesRoom(w: World, evs: seq<Event>, i: nat)
    requires i < |evs|
    requires forall j :: 0 <= j <= i ==> Allocation(At(w, evs, j).s.nodes) < HALF
    requires evs[i].Invoke? && evs[i].op.RegisterAsUploader? ==> evs[i].op.amountGb < HALF
    ensures LeavesRoom(w, evs, i)
  {
    HighWaterBelow(w, evs, i, HALF);
  }

  lemma {:induction false} HighWaterBelow(w: World, evs: seq<Event>, n: nat, bound: int)
    requires n <= |evs|
    requires forall j :: 0 <= j <= n ==> Allocation(At(w, evs, j).s.nodes) < bound
    ensures HighWater(w, evs[..n]) < bound
  {
    hide Run;
    assert Allocation(At(w, evs, n).s.nodes) < bound;
    if n > 0 {
      HighWaterBelow(w, evs, n - 1, bound);
      assert evs[..n][..n - 1] == evs[..n - 1];
    } else {
      AtStart(w, evs);
    }
  }

  lemma AtStart(w: World, evs: seq<Event>)
    ensures At(w, evs, 0) == w
  {
  }

  lemma ListsGiveIndex(s: State)
    requires ListsInv(s)
    ensures IndexAgrees(s)
  {
  }

  // ---- Runs without unregistering or shrinking ----

  /** Nobody unregisters, and no provider lowers its allocation. */
  ghost predicate KeepsCapacity(w: World, ev: Event) {
    ev.Invoke? ==>
      && !ev.op.UnregisterStorageNode?
      && (ev.op.UpdateStorageAllocation? && ev.env.caller in w.s.nodes ==>
            w.s.nodes[ev.env.caller].allocatedGb <= ev.op.newGb)
  }

  lemma CapacityGrows(w: World, ev: Event)
    requires KeepsCapacity(w, ev)
    ensures Allocation(w.s.nodes) <= Allocation(Advance(w, ev).s.nodes)
  {
    hide Wrap;
    if ev.Invoke? && Attempt(w, ev.env, ev.op).Done? {
      var s' := Attempt(w, ev.env, ev.op).next;
      if ev.op.RegisterStorageNode? || ev.op.UpdateStorageAllocation? {
        AllocationPut(w.s.nodes, ev.env.caller, s'.nodes[ev.env.caller]);
      } else {
        OthersLeaveCounts(w.s, ev.env, w.balance + ev.env.coins, ev.op);
        hide Step;
        assert AllocationOf(s'.nodes) == AllocationOf(w.s.nodes);
      }
    }
  }

  /** In such runs what is booked never exceeds the capacity on offer right now. */
  lemma {:induction false} BookedUnderCapacity(admin: Text, config: Option<Config>, evs: seq<Event>)
    requires forall i :: 0 <= i < |evs| ==> LeavesRoom(Genesis(admin, config), evs, i)
    requires forall i :: 0 <= i < |evs| ==> KeepsCapacity(At(Genesis(admin, config), evs, i), evs[i])
    ensures var s := Run(Genesis(admin, config), evs).s; BookedTotal(s) <= Allocation(s.nodes)
  {
    var w0 := Genesis(admin, config);
    BookedUnderHighWater(admin, config, evs);
    HighWaterIsNow(w0, evs);
  }

  lemma {:induction false} HighWaterIsNow(w: World, evs: seq<Event>)
    requires forall i :: 0 <= i < |evs| ==> KeepsCapacity(At(w, evs, i), evs[i])
    ensures HighWater(w, evs) == Allocation(Run(w, evs).s.nodes)
  {
    if evs != [] {
      hide KeepsCapacity;
      hide Advance;
      var n := |evs| - 1;
      forall i | 0 <= i < n
        ensures KeepsCapacity(At(w, evs[..n], i), evs[..n][i])
      {
        PrefixAt(w, evs, i);
      }
      HighWaterIsNow(w, evs[..n]);
      assert KeepsCapacity(At(w, evs, n), evs[n]);
      CapacityGrows(Run(w, evs[..n]), evs[n]);
    }
  }
}
