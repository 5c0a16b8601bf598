/** Two calculations of the web page: the split of an extension payment among providers, and the
    capacity check made before a booking is sent to the contract. */
module FrontEnd {
  import opened Words
  import opened Records
  import opened Registry
  import opened Sums
  import opened Runs
  import opened Bookings

  // ---- Extension payments ----

  /** A stored file: what its extension costs, and the providers noted for it (blank ones included). */
  datatype Entry = Entry(priceNano: nat, providers: seq<string>)

  function NonBlank(xs: seq<string>): seq<string> {
    if xs == [] then [] else (if xs[0] == "" then [] else [xs[0]]) + NonBlank(xs[1..])
  }

  /** Blank names are dropped, and every other name is kept as often as it is listed. */
  lemma {:induction false} NonBlankKeeps(xs: seq<string>)
    ensures multiset(NonBlank(xs)) == multiset(xs)["" := 0]
  {
    if xs != [] {
      NonBlankKeeps(xs[1..]);
      assert xs == [xs[0]] + xs[1..];
    }
  }

  function Payees(e: Entry): seq<string> {
    NonBlank(e.providers)
  }

  /** Occurrences of `a` in a list. */
  ghost function Count(xs: seq<string>, a: string): nat {
    multiset(xs)[a]
  }

  /** Sum over the first entries of what `f` says about one entry. */
  ghost function SumOf(entries: seq<Entry>, f: Entry -> int): int {
    if entries == [] then 0 else SumOf(entries[..|entries| - 1], f) + f(entries[|entries| - 1])
  }

  ghost function Charged(e: Entry): int {
    if Payees(e) == [] then 0 else e.priceNano
  }

  /** What `a` gets for one entry: an equal, rounded-down share for each time it is listed. */
  ghost function ShareFor(e: Entry, a: string): int {
    if Payees(e) == [] then 0 else Count(Payees(e), a) * (e.priceNano / |Payees(e)|)
  }

  /** What rounding leaves unassigned. */
  ghost function Leftover(e: Entry): int {
    if Payees(e) == [] then 0 else e.priceNano % |Payees(e)|
  }

  ghost function PayeeCount(e: Entry): int {
    |Payees(e)|
  }

  /** What an address gets for all the entries together. */
  ghost function SharesOf(entries: seq<Entry>, a: string): int {
    if entries == [] then 0 else SharesOf(entries[..|entries| - 1], a) + ShareFor(entries[|entries| - 1], a)
  }

  /** Sums and shares of one entry more. */
  lemma NextEntry(entries: seq<Entry>, i: nat)
    requires i < |entries|
    ensures forall f :: SumOf(entries[..i + 1], f) == SumOf(entries[..i], f) + f(entries[i])
    ensures forall a :: SharesOf(entries[..i + 1], a) == SharesOf(entries[..i], a) + ShareFor(entries[i], a)
  {
    assert entries[..i + 1][..i] == entries[..i];
  }

  lemma {:induction false} SumLess(entries: seq<Entry>)
    ensures 0 <= SumOf(entries, Leftover) <= SumOf(entries, PayeeCount)
    ensures SumOf(entries, PayeeCount) > 0 ==> SumOf(entries, Leftover) < SumOf(entries, PayeeCount)
  {
    if entries != [] {
      SumLess(entries[..|entries| - 1]);
    }
  }

  lemma CountExtends(xs: seq<string>, j: nat, a: string)
    requires j < |xs|
    ensures Count(xs[..j + 1], a) == Count(xs[..j], a) + if xs[j] == a then 1 else 0
  {
    assert xs[..j + 1] == xs[..j] + [xs[j]];
  }

  lemma ShareGrows(count: nat, more: nat, share: nat)
    ensures (count + more) * share == count * share + more * share
  {
  }

  /** The credits of one entry: `share` for each payee, one after the other. */
  method CreditAll(before: map<string, nat>, payees: seq<string>, share: nat) returns (after: map<string, nat>)
    requires share > 0
    requires forall a :: a in before ==> before[a] > 0
    ensures forall a :: Get(after, a) == Get(before, a) + Count(payees, a) * share
    ensures forall a :: a in after ==> after[a] > 0
    ensures Total(after) == Total(before) + |payees| * share
  {
    hide Total;
    after := before;
    var j := 0;
    while j < |payees|
      invariant 0 <= j <= |payees|
      invariant forall a :: Get(after, a) == Get(before, a) + Count(payees[..j], a) * share
      invariant forall a :: a in after ==> after[a] > 0
      invariant Total(after) == Total(before) + j * share
    {
      ghost var was := after;
      var addr := payees[j];
      TotalPut(after, addr, Get(after, addr) + share);
      after := after[addr := (if addr in after then after[addr] else 0) + share];
      forall a
        ensures Get(after, a) == Get(before, a) + Count(payees[..j + 1], a) * share
      {
        CountExtends(payees, j, a);
        assert Get(after, a) == Get(was, a) + if payees[j] == a then share else 0;
        ShareGrows(Count(payees[..j], a), 1, share);
      }
      ShareGrows(j, 1, share);
      j := j + 1;
    }
    assert payees[..|payees|] == payees;
  }

  lemma NothingLeft(e: Entry)
    requires Payees(e) == []
    ensures Leftover(e) == 0
  {
  }

  lemma EntryShares(e: Entry, share: nat)
    requires Payees(e) != [] && share == e.priceNano / |Payees(e)|
    ensures forall a :: ShareFor(e, a) == Count(Payees(e), a) * share
    ensures share == 0 ==> forall a :: ShareFor(e, a) == 0
    ensures e.priceNano == |Payees(e)| * share + Leftover(e)
  {
  }

  /** One turn of the outer loop. */
  method PayForEntry(e: Entry, before: map<string, nat>) returns (charged: nat, after: map<string, nat>)
    requires forall a :: a in before ==> before[a] > 0
    ensures charged == Charged(e)
    ensures forall a :: Get(after, a) == Get(before, a) + ShareFor(e, a)
    ensures forall a :: a in after ==> after[a] > 0
    ensures charged - (Total(after) - Total(before)) == Leftover(e)
  {
    hide Total, Get, Leftover;
    charged, after := 0, before;
    var providers := NonBlank(e.providers);
    if providers != [] {
      charged := e.priceNano;
      var perProvider := e.priceNano / |providers|;
      EntryShares(e, perProvider);
      hide ShareFor;
      if perProvider > 0 {
        after := CreditAll(before, providers, perProvider);
      }
    } else {
      assert Leftover(e) == 0 by { NothingLeft(e); }
    }
  }

  /** What is charged, and who is owed what. The charge covers all the shares; what is left over is
      exactly what rounding dropped, so it is smaller than the number of payees. */
  method ComputeExtendPayment(entries: seq<Entry>) returns (totalNano: nat, byProvider: map<string, nat>)
    ensures totalNano == SumOf(entries, Charged)
    ensures forall a :: Get(byProvider, a) == SharesOf(entries, a)
    ensures forall a :: a in byProvider ==> byProvider[a] > 0
    ensures totalNano - Total(byProvider) == SumOf(entries, Leftover)
    ensures 0 <= totalNano - Total(byProvider)
    ensures SumOf(entries, PayeeCount) > 0 ==> totalNano - Total(byProvider) < SumOf(entries, PayeeCount)
  {
    hide Total;
    hide SumOf;
    hide SharesOf;
    totalNano, byProvider := 0, map[];
    NoEntries();
    var i := 0;
    while i < |entries|
      invariant 0 <= i <= |entries|
      invariant totalNano == SumOf(entries[..i], Charged)
      invariant forall a :: Get(byProvider, a) == SharesOf(entries[..i], a)
      invariant forall a :: a in byProvider ==> byProvider[a] > 0
      invariant totalNano - Total(byProvider) == SumOf(entries[..i], Leftover)
    {
      var e := entries[i];
      NextEntry(entries, i);
      var charged;
      charged, byProvider := PayForEntry(e, byProvider);
      totalNano := totalNano + charged;
      i := i + 1;
    }
    assert entries[..|entries|] == entries;
    SumLess(entries);
  }

  lemma NoEntries()
    ensures Total<string>(map[]) == 0
    ensures forall f :: SumOf([], f) == 0
    ensures forall a :: SharesOf([], a) == 0
  {
  }

  // ---- Capacity before booking ----

  /** The capacity that the contract reports as free, never below zero. */
  function AvailableGb(s: State): nat {
    if s.TotalAllocated() > s.TotalBooked() then s.TotalAllocated() - s.TotalBooked() else 0
  }

  /** The page books the whole need when it exceeds what is booked already, and otherwise nothing. */
  function NeedToBook(neededGb: u64, bookedGb: u64): u64 {
    if neededGb > bookedGb then neededGb else 0
  }

  /** The page lets the booking through. */
  predicate PageAccepts(s: State, caller: Text, needToBook: u64) {
    var bookedGb := s.Booked(caller);
    needToBook <= if bookedGb > 0 then AvailableGb(s) + bookedGb else AvailableGb(s)
  }

  /** A booking request that only capacity can still turn down. */
  predicate OnlyCapacityCounts(s: State, env: Env, amountGb: u64) {
    && !s.Paused()
    && amountGb > 0
    && env.coins >= Wrap(amountGb * s.uploaderPricePerGb)
  }

  /** The page and the contract differ in exactly two families. The contract alone takes a booking whose total
      exceeds a word and is small once wrapped. The page alone takes one when more is booked than offered and
      the booking shrinks by too little; or when the wrapped total booked is so small that the difference
      wraps. */
  lemma PreCheckAgainstContract(s: State, env: Env, amountGb: u64)
    requires BookingInv(s) && OnlyCapacityCounts(s, env, amountGb)
    ensures var accepted := OnRegisterAsUploader(s, env, amountGb).Done?;
      var page := PageAccepts(s, env.caller, amountGb);
      var offered, booked, mine := s.TotalAllocated(), s.TotalBooked(), s.Booked(env.caller);
      var after := booked - mine + amountGb;
      && (accepted && !page <==> after >= TWO64 && offered >= after - TWO64)
      && (page && !accepted <==>
            || (after >= 0 && offered < booked && offered - booked + mine < amountGb <= mine)
            || (after < 0 && offered < after + TWO64))
  {
    CheckedTotalWraps(s, env.caller, amountGb);
    WrapNear(TotalAfter(s, env.caller, amountGb));
    hide Wrap, BookingInv;
  }

  /** In every reachable state, for the amounts that the page really sends: what it lets through the contract
      takes, and the contract takes nothing else but bookings whose total exceeds a word. */
  lemma {:induction false} PageIsExact(admin: Text, config: Option<Config>, evs: seq<Event>, env: Env, neededGb: u64)
    requires var s := Run(Genesis(admin, config), evs).s;
      OnlyCapacityCounts(s, env, NeedToBook(neededGb, s.Booked(env.caller)))
    ensures var s := Run(Genesis(admin, config), evs).s;
      var amountGb := NeedToBook(neededGb, s.Booked(env.caller));
      var offered, after := s.TotalAllocated(), TotalAfter(s, env.caller, amountGb);
      OnRegisterAsUploader(s, env, amountGb).Done? <==>
        PageAccepts(s, env.caller, amountGb) || (after >= TWO64 && offered >= after - TWO64)
  {
    var s := Run(Genesis(admin, config), evs).s;
    BookingsHold(admin, config, evs);
    hide Run, BookingInv, Wrap;
    PreCheckAgainstContract(s, env, NeedToBook(neededGb, s.Booked(env.caller)));
    hide OnRegisterAsUploader;
  }

  // ---- Runs that reach both families ----

  function Offer(a: Text, gb: u64): Event {
    Invoke(Env(a, 0, 0, 0), Op.RegisterStorageNode(gb, EMPTY, []))
  }

  function Book(b: Text, gb: nat): Event
    requires gb <= 1000
  {
    Invoke(Env(b, 0, 0, gb * 1_000_000), Op.RegisterAsUploader(gb))
  }

  /** One provider on offer. */
  lemma Offered(admin: Text, a: Text, gb: u64)
    requires 1 <= gb <= 1000
    ensures var s := Run(Genesis(admin, None), [Offer(a, gb)]).s;
      && s.nodes == map[a := NewNode(a, gb, 0)] && s.nodeIndex == [a]
      && s.bookings == map[] && s.uploaderIndex == []
      && !s.Paused() && s.uploaderPricePerGb == DEFAULT_UPLOADER_PRICE_PER_GB
      && s.TotalAllocated() == gb && s.TotalBooked() == 0
  {
    var w0 := Genesis(admin, None);
    assert [Offer(a, gb)][..0] == [];
    assert Run(w0, [Offer(a, gb)]) == Advance(w0, Offer(a, gb));
    assert OnRegisterStorageNode(w0.s, Env(a, 0, 0, 0), gb, EMPTY, []).Done?;
    hide Run;
    var s := Run(w0, [Offer(a, gb)]).s;
    assert s == OnRegisterStorageNode(w0.s, Env(a, 0, 0, 0), gb, EMPTY, []).next;
    assert s.nodeIndex == [a];
    assert s.AllocatedUpTo(0) == 0;
  }

  /** One provider on offer, and one booking. */
  lemma OfferedAndBooked(admin: Text, a: Text, gb: u64, b: Text, amountGb: u64)
    requires 1 <= amountGb <= gb <= 1000
    ensures var s := Run(Genesis(admin, None), [Offer(a, gb), Book(b, amountGb)]).s;
      && s.nodes == map[a := NewNode(a, gb, 0)] && s.nodeIndex == [a]
      && s.bookings == map[b := amountGb] && s.uploaderIndex == [b]
      && !s.Paused() && s.uploaderPricePerGb == DEFAULT_UPLOADER_PRICE_PER_GB
      && s.TotalBooked() == amountGb
  {
    Offered(admin, a, gb);
    var evs := [Offer(a, gb), Book(b, amountGb)];
    assert evs[..1] == [Offer(a, gb)];
    var w1 := Run(Genesis(admin, None), evs[..1]);
    hide Run;
    WrapSmall(amountGb);
    WrapSmall(amountGb * 1_000_000);
    RunNext(Genesis(admin, None), [Offer(a, gb)], Book(b, amountGb));
    assert [Offer(a, gb)] + [Book(b, amountGb)] == evs;
    var s := Advance(w1, Book(b, amountGb)).s;
    assert s == OnRegisterAsUploader(w1.s, Book(b, amountGb).env, amountGb).next;
    assert s.BookedUpTo(0) == 0;
  }

  /** 1 GB is offered and booked; then somebody needs all that a word can hold. The page refuses, and the
      contract, whose total wraps to 0, takes the booking: more is booked than a word can count. */
  lemma ContractAloneAccepts(admin: Text, a: Text, b: Text, c: Text)
    requires b != c
    ensures var s := Run(Genesis(admin, None), [Offer(a, 1), Book(b, 1)]).s;
      var amountGb := NeedToBook(MAX64, s.Booked(c));
      var r := OnRegisterAsUploader(s, Env(c, 0, 0, TWO64 - 1_000_000), amountGb);
      && BookedTotal(s) == 1 && amountGb == TWO64 - BookedTotal(s)
      && !PageAccepts(s, c, amountGb)
      && r.Done? && BookedTotal(r.next) == TWO64
  {
    var s, env := Run(Genesis(admin, None), [Offer(a, 1), Book(b, 1)]).s, Env(c, 0, 0, TWO64 - 1_000_000);
    OfferedAndBooked(admin, a, 1, b, 1);
    BookingsHold(admin, None, [Offer(a, 1), Book(b, 1)]);
    hide Run, BookingInv;
    TotalPut<Text>(map[], b, 1);
    assert map[][b := 1 as int] == s.bookings;
    assert Wrap((TWO64 - 1) * 1_000_000) == TWO64 - 1_000_000;
    BookingThatWraps(s, env);
    PreCheckAgainstContract(s, env, MAX64);
  }

  /** 10 GB are offered, 8 are booked, the provider leaves, and the booking is to shrink to 5: the page lets it
      through, and the contract refuses. Pages send no such request, since it is below the booking. */
  lemma PageAloneAccepts(admin: Text, a: Text, b: Text)
    ensures var w := Run(Genesis(admin, None), [Offer(a, 10), Book(b, 8)]);
      var s := Advance(w, Invoke(Env(a, 0, 0, 0), Op.UnregisterStorageNode)).s;
      && s.TotalAllocated() == 0 && s.TotalBooked() == 8
      && PageAccepts(s, b, 5)
      && OnRegisterAsUploader(s, Env(b, 0, 0, 5_000_000), 5) == Reverted(InsufficientCapacity)
  {
    var w := Run(Genesis(admin, None), [Offer(a, 10), Book(b, 8)]);
    OfferedAndBooked(admin, a, 10, b, 8);
    hide Run;
    var s := Advance(w, Invoke(Env(a, 0, 0, 0), Op.UnregisterStorageNode)).s;
    assert s == OnUnregisterStorageNode(w.s, Env(a, 0, 0, 0)).next;
    assert s.nodes == map[a := NewNode(a, 10, 0).(active := false)];
    assert s.AllocatedUpTo(0) == 0 && s.BookedUpTo(0) == 0;
  }
}
