/**
 The worker threads of the pool bench (apps/cohsh/src/lib.rs): each claims batches of indices with an atomic
 fetch-add and spends injection tokens with a load and compare-exchange loop. A run is any interleaving of the
 workers' atomic steps; counters do not overflow.
 */
module PoolBench {

  datatype Range = Range(lo: nat, hi: nat)

  /** Where a worker is between two atomic steps. */
  datatype Phase =
    | Fetching
    | Loading(claim: Range)
    | Swapping(claim: Range, seen: nat)
    | Writing(claim: Range)
    | Done
    | Failed

  datatype Config = Config(ops: nat, batch: nat, tokens: nat)

  datatype World = World(
    workers: seq<Phase>,
    counter: nat,          // shared_ops
    injects: nat,          // inject_remaining
    successes: nat,        // indices written
    lost: nat,             // indices claimed by a worker whose payloads or write failed
    claims: seq<Range>,    // every claim so far, in order
    spent: nat)            // tokens spent so far

  /** One atomic step of one worker; `ok` is false when its payload building or its write fails. */
  datatype Action = Action(worker: nat, ok: bool)

  function Min(a: nat, b: nat): nat {
    if a < b then a else b
  }

  function Size(r: Range): nat {
    if r.lo <= r.hi then r.hi - r.lo else 0
  }

  predicate Enabled(w: World, a: Action) {
    a.worker < |w.workers| && !w.workers[a.worker].Done? && !w.workers[a.worker].Failed?
  }

  function Step(c: Config, w: World, a: Action): World
    requires Enabled(w, a)
  {
    var i := a.worker;
    match w.workers[i]
    case Fetching =>
      var start := w.counter;
      var fetched := w.(counter := start + c.batch);
      if start >= c.ops then fetched.(workers := w.workers[i := Done])
      else
        var claim := Range(start, Min(start + c.batch, c.ops));
        fetched.(claims := w.claims + [claim], workers := w.workers[i := Loading(claim)])
    case Loading(claim) =>
      if !a.ok then w.(workers := w.workers[i := Failed], lost := w.lost + Size(claim))
      else if w.injects == 0 then w.(workers := w.workers[i := Writing(claim)])
      else w.(workers := w.workers[i := Swapping(claim, w.injects)])
    case Swapping(claim, seen) =>
      if w.injects == seen then
        w.(workers := w.workers[i := Writing(claim)], injects := if seen == 0 then 0 else seen - 1, spent := w.spent + 1)
      else w.(workers := w.workers[i := Loading(claim)])
    case Writing(claim) =>
      var back := w.(workers := w.workers[i := Fetching]);
      if a.ok then back.(successes := w.successes + Size(claim)) else back.(lost := w.lost + Size(claim))
    case Done => w
    case Failed => w
  }

  function Start(c: Config, n: nat): World {
    World(seq(n, _ => Fetching), 0, c.tokens, 0, 0, [], 0)
  }

  // ----- the invariant -----

  /** Non-empty ranges laid end to end from 0 to `upto`. */
  predicate Tiles(claims: seq<Range>, upto: nat)
    decreases |claims|
  {
    if claims == [] then upto == 0
    else
      var last := claims[|claims| - 1];
      last.lo < last.hi == upto && Tiles(claims[..|claims| - 1], last.lo)
  }

  function Held(p: Phase): nat {
    match p
    case Loading(claim) => Size(claim)
    case Swapping(claim, _) => Size(claim)
    case Writing(claim) => Size(claim)
    case _ => 0
  }

  function InFlight(workers: seq<Phase>): nat
    decreases |workers|
  {
    if workers == [] then 0 else InFlight(workers[..|workers| - 1]) + Held(workers[|workers| - 1])
  }

  predicate Inv(c: Config, w: World) {
    && c.batch >= 1
    && Tiles(w.claims, Min(w.counter, c.ops))
    && w.spent + w.injects == c.tokens
    && (forall i :: 0 <= i < |w.workers| && w.workers[i].Swapping? ==> w.workers[i].seen > 0)
    && w.successes + w.lost + InFlight(w.workers) == Min(w.counter, c.ops)
    && (forall i :: 0 <= i < |w.workers| && w.workers[i].Done? ==> w.counter >= c.ops)
  }

  lemma {:induction false} InFlightUpdate(workers: seq<Phase>, i: nat, p: Phase)
    requires i < |workers|
    ensures InFlight(workers[i := p]) + Held(workers[i]) == InFlight(workers) + Held(p)
    decreases |workers|
  {
    hide Held;
    var n := |workers| - 1;
    if i == n {
      assert workers[i := p][..n] == workers[..n];
    } else {
      assert workers[i := p][..n] == workers[..n][i := p];
      InFlightUpdate(workers[..n], i, p);
    }
  }

  lemma {:induction false} StartInv(c: Config, n: nat)
    requires c.batch >= 1
    ensures Inv(c, Start(c, n))
  {
    NothingHeld(seq(n, _ => Fetching));
  }

  lemma {:induction false} NothingHeld(workers: seq<Phase>)
    requires forall i :: 0 <= i < |workers| ==> Held(workers[i]) == 0
    ensures InFlight(workers) == 0
    decreases |workers|
  {
    if workers != [] {
      NothingHeld(workers[..|workers| - 1]);
    }
  }

  lemma {:induction false} TilesAppend(claims: seq<Range>, upto: nat, claim: Range)
    requires Tiles(claims, upto) && claim.lo == upto < claim.hi
    ensures Tiles(claims + [claim], claim.hi)
  {
    assert (claims + [claim])[..|claims|] == claims;
  }

  /** Every atomic step of every worker keeps the invariant. */
  lemma {:induction false} StepInv(c: Config, w: World, a: Action)
    requires Inv(c, w) && Enabled(w, a)
    ensures Inv(c, Step(c, w, a))
  {
    var i := a.worker;
    var w' := Step(c, w, a);
    InFlightUpdate(w.workers, i, w'.workers[i]);
    assert w'.workers == w.workers[i := w'.workers[i]];
    hide InFlight, Tiles;
    if w.workers[i].Fetching? && w.counter < c.ops {
      TilesAppend(w.claims, w.counter, Range(w.counter, Min(w.counter + c.batch, c.ops)));
    }
  }

  predicate Reaches(c: Config, w: World, schedule: seq<Action>, w': World)
    decreases |schedule|
  {
    if schedule == [] then w' == w
    else Enabled(w, schedule[0]) && Reaches(c, Step(c, w, schedule[0]), schedule[1..], w')
  }

  lemma {:induction false} ReachesInv(c: Config, w: World, schedule: seq<Action>, w': World)
    requires Inv(c, w) && Reaches(c, w, schedule, w')
    ensures Inv(c, w')
    decreases |schedule|
  {
    hide Inv, Step;
    if schedule != [] {
      StepInv(c, w, schedule[0]);
      ReachesInv(c, Step(c, w, schedule[0]), schedule[1..], w');
    }
  }

  // ----- what it says about every run -----

  lemma {:induction false} TilesBelow(claims: seq<Range>, upto: nat, i: nat)
    requires Tiles(claims, upto) && i < |claims|
    ensures claims[i].lo < claims[i].hi <= upto
    decreases |claims|
  {
    var n := |claims| - 1;
    if i < n {
      TilesBelow(claims[..n], claims[n].lo, i);
      assert claims[..n][i] == claims[i];
    }
  }

  lemma {:induction false} TilesDisjoint(claims: seq<Range>, upto: nat, i: nat, j: nat)
    requires Tiles(claims, upto) && i < j < |claims|
    ensures claims[i].hi <= claims[j].lo
    decreases |claims|
  {
    var n := |claims| - 1;
    if j < n {
      TilesDisjoint(claims[..n], claims[n].lo, i, j);
      assert claims[..n][i] == claims[i] && claims[..n][j] == claims[j];
    } else {
      TilesBelow(claims[..n], claims[n].lo, i);
      assert claims[..n][i] == claims[i];
    }
  }

  lemma {:induction false} TilesCover(claims: seq<Range>, upto: nat, x: nat) returns (i: nat)
    requires Tiles(claims, upto) && x < upto
    ensures i < |claims| && claims[i].lo <= x < claims[i].hi
    decreases |claims|
  {
    var n := |claims| - 1;
    if claims[n].lo <= x {
      i := n;
    } else {
      i := TilesCover(claims[..n], claims[n].lo, x);
      assert claims[..n][i] == claims[i];
    }
  }

  predicate Claimed(r: Range, x: nat) {
    r.lo <= x < r.hi
  }

  predicate IsClaimed(claims: seq<Range>, x: nat) {
    exists i :: 0 <= i < |claims| && Claimed(claims[i], x)
  }

  /** At any moment of any run no index is claimed twice, and nothing at or past `ops` is claimed. */
  lemma {:induction false} ClaimsDisjoint(c: Config, n: nat, schedule: seq<Action>, w: World)
    requires c.batch >= 1 && Reaches(c, Start(c, n), schedule, w)
    ensures forall i, j, x: nat :: 0 <= i < |w.claims| && 0 <= j < |w.claims| && Claimed(w.claims[i], x) && Claimed(w.claims[j], x) ==> i == j
    ensures forall i, x: nat :: 0 <= i < |w.claims| && Claimed(w.claims[i], x) ==> x < c.ops
  {
    StartInv(c, n);
    ReachesInv(c, Start(c, n), schedule, w);
    hide Tiles, Reaches, InFlight;
    var upto := Min(w.counter, c.ops);
    forall i, j, x: nat | 0 <= i < |w.claims| && 0 <= j < |w.claims| && Claimed(w.claims[i], x) && Claimed(w.claims[j], x)
      ensures i == j
    {
      if i < j {
        TilesDisjoint(w.claims, upto, i, j);
      } else if j < i {
        TilesDisjoint(w.claims, upto, j, i);
      }
    }
    forall i, x: nat | 0 <= i < |w.claims| && Claimed(w.claims[i], x) ensures x < c.ops {
      TilesBelow(w.claims, upto, i);
    }
  }

  /** As soon as one worker has seen a start at or past `ops`, every index below `ops` is claimed. */
  lemma {:induction false} ClaimsComplete(c: Config, n: nat, schedule: seq<Action>, w: World)
    requires c.batch >= 1 && Reaches(c, Start(c, n), schedule, w)
    requires exists k :: 0 <= k < |w.workers| && w.workers[k].Done?
    ensures forall x: nat :: x < c.ops ==> IsClaimed(w.claims, x)
  {
    StartInv(c, n);
    ReachesInv(c, Start(c, n), schedule, w);
    hide Tiles, Reaches, InFlight;
    forall x: nat | x < c.ops ensures IsClaimed(w.claims, x) {
      var i := TilesCover(w.claims, Min(w.counter, c.ops), x);
      assert Claimed(w.claims[i], x);
    }
  }

  /** Tokens spent never exceed those configured, and the counter always holds the rest. */
  lemma {:induction false} TokensBounded(c: Config, n: nat, schedule: seq<Action>, w: World)
    requires c.batch >= 1 && Reaches(c, Start(c, n), schedule, w)
    ensures w.spent + w.injects == c.tokens
  {
    StartInv(c, n);
    ReachesInv(c, Start(c, n), schedule, w);
  }

  /**
   Whenever no worker holds a claim, every index handed out was written once or lost with a failed worker or write.
   So it is when all have finished or failed, and if at least one finished, that is all the work.
   */
  lemma {:induction false} WorkConserved(c: Config, n: nat, schedule: seq<Action>, w: World)
    requires c.batch >= 1 && Reaches(c, Start(c, n), schedule, w)
    requires forall k :: 0 <= k < |w.workers| ==> Held(w.workers[k]) == 0
    ensures w.successes + w.lost == Min(w.counter, c.ops)
    ensures (exists k :: 0 <= k < |w.workers| && w.workers[k].Done?) ==> w.successes + w.lost == c.ops
  {
    StartInv(c, n);
    ReachesInv(c, Start(c, n), schedule, w);
    NothingHeld(w.workers);
    hide Tiles, Reaches, InFlight;
  }

  predicate AllOk(schedule: seq<Action>) {
    forall k :: 0 <= k < |schedule| ==> schedule[k].ok
  }

  predicate NoneOk(schedule: seq<Action>) {
    forall k :: 0 <= k < |schedule| ==> !schedule[k].ok
  }

  lemma {:induction false} OutcomesAre(c: Config, w: World, schedule: seq<Action>, w': World)
    requires Reaches(c, w, schedule, w')
    ensures AllOk(schedule) && (forall k :: 0 <= k < |w.workers| ==> !w.workers[k].Failed?) ==>
              w'.lost == w.lost && forall k :: 0 <= k < |w'.workers| ==> !w'.workers[k].Failed?
    ensures NoneOk(schedule) ==> w'.successes == w.successes
    decreases |schedule|
  {
    if schedule != [] {
      OutcomesAre(c, Step(c, w, schedule[0]), schedule[1..], w');
    }
  }

  /** Where nothing fails nothing is lost, and one finished worker is enough to know that, with no claim out, all is written. */
  lemma {:induction false} AllWritten(c: Config, n: nat, schedule: seq<Action>, w: World)
    requires c.batch >= 1 && Reaches(c, Start(c, n), schedule, w)
    ensures AllOk(schedule) ==> w.lost == 0 && forall k :: 0 <= k < |w.workers| ==> !w.workers[k].Failed?
    ensures NoneOk(schedule) ==> w.successes == 0
    ensures (&& AllOk(schedule)
             && (exists k :: 0 <= k < |w.workers| && w.workers[k].Done?)
             && (forall k :: 0 <= k < |w.workers| ==> Held(w.workers[k]) == 0))
            ==> w.successes == c.ops
  {
    hide Reaches, Inv;
    OutcomesAre(c, Start(c, n), schedule, w);
    if forall k :: 0 <= k < |w.workers| ==> Held(w.workers[k]) == 0 {
      WorkConserved(c, n, schedule, w);
    }
  }
}
