/** Runs of the contract: any sequence of calls, by anybody, and of coins arriving from outside. */
module Runs {
  import opened Words
  import opened Records
  import opened Registry

  /** The contract together with its balance and what has flowed in and out of it. */
  datatype World = World(s: State, balance: nat, received: nat, claimed: nat)

  datatype Event = Invoke(env: Env, op: Op) | CoinsArrive(amount: nat)

  function Genesis(admin: Text, config: Option<Config>): World {
    World(Deploy(admin, config), 0, 0, 0)
  }

  /** What a call does in world `w`; the coins attached to it are already part of the balance. */
  function Attempt(w: World, env: Env, op: Op): Outcome {
    Step(w.s, env, w.balance + env.coins, op)
  }

  /** A successful call keeps the attached coins and pays out; a reverted one leaves no trace. */
  function Advance(w: World, ev: Event): World {
    match ev
    case CoinsArrive(amount) => w.(balance := w.balance + amount, received := w.received + amount)
    case Invoke(env, op) =>
      match Attempt(w, env, op)
      case Reverted(_) => w
      case Done(s, paid) =>
        PaidIsCovered(w, env, op);
        World(s, w.balance + env.coins - paid, w.received + env.coins, w.claimed + paid)
  }

  lemma PaidIsCovered(w: World, env: Env, op: Op)
    ensures var r := Attempt(w, env, op); r.Done? ==> r.paid <= w.balance + env.coins
  {
  }

  function Run(w: World, evs: seq<Event>): World {
    if evs == [] then w else Advance(Run(w, evs[..|evs| - 1]), evs[|evs| - 1])
  }

  lemma RunNext(w: World, evs: seq<Event>, ev: Event)
    ensures Run(w, evs + [ev]) == Advance(Run(w, evs), ev)
  {
    assert (evs + [ev])[..|evs|] == evs;
  }

  /** The world after the first `n` events. */
  function At(w: World, evs: seq<Event>, n: nat): World
    requires n <= |evs|
  {
    Run(w, evs[..n])
  }

  lemma AtEnd(w: World, evs: seq<Event>)
    ensures At(w, evs, |evs|) == Run(w, evs)
  {
    assert evs[..|evs|] == evs;
  }

  /** A property of states that every successful call keeps holds at the end of every run. */
  lemma {:induction false} Invariant(inv: State -> bool, w: World, evs: seq<Event>)
    requires inv(w.s)
    requires forall s, env, b, op :: inv(s) && Step(s, env, b, op).Done? ==> inv(Step(s, env, b, op).next)
    ensures inv(Run(w, evs).s)
  {
    if evs != [] {
      Invariant(inv, w, evs[..|evs| - 1]);
    }
  }
}
