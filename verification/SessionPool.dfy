/**
 The bounded session pool of apps/cohsh/src/session_pool.rs. Every operation holds the pool's mutex, so a
 concurrent history is a sequence of operations; the model keeps, beside the pool's own counters and queues,
 the sessions out on lease and the sessions already quit. Sessions are numbered in the order they are spawned.
 */
module SessionPool {
  import opened Outcome

  datatype Kind = Control | Telemetry

  /** One half of the pool: its bookkeeping and the sessions out on lease. */
  datatype Side = Side(capacity: nat, total: nat, idle: seq<nat>, leased: set<nat>)

  datatype World = World(
    control: Side,
    telemetry: Side,
    attached: bool,
    closed: bool,
    quits: seq<nat>,    // sessions told to quit, in order
    next: nat,          // the number of the next session
    base: nat)          // its value at the last reset

  datatype PoolError = Closed | NotAttached | Exhausted | SpawnFailed

  /** The mutex-protected operations. `spawns` is how many sessions the factory can still make when asked. */
  datatype Op =
    | Attach(spawns: nat)
    | Checkout(kind: Kind, spawns: nat)
    | Return(kind: Kind, id: nat)
    | Shutdown

  function Elems(s: seq<nat>): set<nat> {
    set x | x in s
  }

  predicate NoRepeats(s: seq<nat>) {
    forall i, j :: 0 <= i < j < |s| ==> s[i] != s[j]
  }

  function Get(w: World, kind: Kind): Side {
    if kind == Control then w.control else w.telemetry
  }

  function Put(w: World, kind: Kind, s: Side): World {
    if kind == Control then w.(control := s) else w.(telemetry := s)
  }

  // ----- the operations -----

  function Init(control: nat, telemetry: nat): World {
    World(Side(if control == 0 then 1 else control, 0, [], {}),
          Side(if telemetry == 0 then 1 else telemetry, 0, [], {}), false, false, [], 0, 0)
  }

  /** `reset_locked`: idle sessions quit and the totals start again; leases are not touched. */
  function Reset(w: World): World {
    w.(control := w.control.(total := 0, idle := []),
       telemetry := w.telemetry.(total := 0, idle := []),
       attached := false,
       quits := w.quits + w.control.idle + w.telemetry.idle,
       base := w.next)
  }

  /** A new session put in the idle queue. */
  function WarmOne(w: World, kind: Kind): World {
    var s := Get(w, kind);
    Put(w, kind, s.(total := s.total + 1, idle := s.idle + [w.next])).(next := w.next + 1)
  }

  function Warm(w: World, kind: Kind, n: nat): World {
    if n == 0 then w else WarmOne(Warm(w, kind, n - 1), kind)
  }

  function Min(a: nat, b: nat): nat {
    if a < b then a else b
  }

  /** `control_capacity.saturating_sub(1)` */
  function ExtraControl(w: World): nat {
    if w.control.capacity == 0 then 0 else w.control.capacity - 1
  }

  function ControlWarm(w: World, spawns: nat): nat {
    Min(spawns, ExtraControl(w))
  }

  function TelemetryWarm(w: World, spawns: nat): nat {
    if spawns < ExtraControl(w) then 0 else Min(spawns - ExtraControl(w), w.telemetry.capacity)
  }

  /** `attach`: reset, then one control session short of capacity and all telemetry sessions, until a spawn fails. */
  function AttachTo(w: World, spawns: nat): World {
    var start := Reset(w).(attached := true, closed := false);
    Warm(Warm(start, Control, ControlWarm(w, spawns)), Telemetry, TelemetryWarm(w, spawns))
  }

  /** `checkout`: an idle session, or a new one while the total is below capacity. */
  function CheckoutFrom(w: World, kind: Kind, spawns: nat): (World, Result<nat, PoolError>) {
    var s := Get(w, kind);
    if w.closed then (w, Err(Closed))
    else if !w.attached then (w, Err(NotAttached))
    else if s.idle != [] then
      (Put(w, kind, s.(idle := s.idle[1..], leased := s.leased + {s.idle[0]})), Ok(s.idle[0]))
    else if s.total >= s.capacity then (w, Err(Exhausted))
    else if spawns == 0 then (w, Err(SpawnFailed))
    else (Put(w, kind, s.(total := s.total + 1, leased := s.leased + {w.next})).(next := w.next + 1), Ok(w.next))
  }

  /** Dropping a lease: back to the idle queue, or quit when the pool is closed. */
  function ReturnTo(w: World, kind: Kind, id: nat): World {
    var s := Get(w, kind);
    if w.closed then Put(w, kind, s.(leased := s.leased - {id})).(quits := w.quits + [id])
    else Put(w, kind, s.(leased := s.leased - {id}, idle := s.idle + [id]))
  }

  predicate Enabled(w: World, op: Op) {
    op.Return? ==> op.id in Get(w, op.kind).leased
  }

  function Step(w: World, op: Op): World {
    match op
    case Attach(spawns) => AttachTo(w, spawns)
    case Checkout(kind, spawns) => CheckoutFrom(w, kind, spawns).0
    case Return(kind, id) => ReturnTo(w, kind, id)
    case Shutdown => Reset(w.(closed := true))
  }

  // ----- the invariant -----

  function Alive(s: Side): set<nat> {
    Elems(s.idle) + s.leased
  }

  /** The sessions of a side that were spawned since the last reset. */
  function Fresh(s: Side, base: nat): set<nat> {
    set x | x in Alive(s) && x >= base
  }

  /** The sessions of a side that were on lease at the last reset and have not quit since. */
  function Carried(s: Side, base: nat): set<nat> {
    set x | x in Alive(s) && x < base
  }

  predicate SideInv(s: Side, w: World) {
    && 1 <= s.capacity
    && NoRepeats(s.idle) && Elems(s.idle) !! s.leased
    && (forall x :: x in Alive(s) ==> x < w.next && x !in w.quits)
    && |Fresh(s, w.base)| == s.total <= s.capacity
    && (w.closed || !w.attached ==> s.idle == [] && s.total == 0)
    && (!w.closed && !w.attached ==> s.leased == {})
  }

  /** Every session ever spawned is in exactly one place, and quit at most once. */
  predicate Inv(w: World) {
    && SideInv(w.control, w) && SideInv(w.telemetry, w)
    && Alive(w.control) !! Alive(w.telemetry)
    && NoRepeats(w.quits) && (forall x :: x in w.quits ==> x < w.next)
    && (forall x :: 0 <= x < w.next ==> x in Alive(w.control) || x in Alive(w.telemetry) || x in w.quits)
    && w.base <= w.next
    && !(w.closed && w.attached)
  }

  // ----- every operation keeps it -----

  lemma {:induction false} InitInv(control: nat, telemetry: nat)
    ensures Inv(Init(control, telemetry))
  {
    var w := Init(control, telemetry);
    assert Fresh(w.control, 0) == {} && Fresh(w.telemetry, 0) == {};
  }

  lemma {:induction false} ConcatNoRepeats(a: seq<nat>, b: seq<nat>)
    requires NoRepeats(a) && NoRepeats(b) && Elems(a) !! Elems(b)
    ensures NoRepeats(a + b) && Elems(a + b) == Elems(a) + Elems(b)
  {
    forall i, j | 0 <= i < j < |a + b| ensures (a + b)[i] != (a + b)[j] {
      assert i < |a| <= j ==> a[i] in Elems(a) && b[j - |a|] in Elems(b);
    }
  }

  lemma {:induction false} ResetInv(w: World)
    requires Inv(w)
    ensures Inv(Reset(w).(closed := true)) && Inv(Reset(w).(attached := true, closed := false))
  {
    ConcatNoRepeats(w.quits, w.control.idle);
    ConcatNoRepeats(w.quits + w.control.idle, w.telemetry.idle);
    var r := Reset(w);
    assert Fresh(r.control, r.base) == {} && Fresh(r.telemetry, r.base) == {};
    forall x | 0 <= x < w.next ensures x in Alive(r.control) || x in Alive(r.telemetry) || x in r.quits {
      assert x in Elems(w.control.idle) ==> x in r.quits;
      assert x in Elems(w.telemetry.idle) ==> x in r.quits;
    }
    assert forall x :: x in r.quits ==> x in w.quits || x in Elems(w.control.idle) || x in Elems(w.telemetry.idle);
  }

  /** Changing one side: sessions only move between that side and the quits, or are new. */
  lemma {:induction false} ChangeSide(w: World, kind: Kind, w': World)
    requires Inv(w) && w' == Put(w, kind, Get(w', kind)).(next := w'.next, quits := w'.quits)
    requires w.next <= w'.next && SideInv(Get(w', kind), w')
    requires NoRepeats(w'.quits)
    requires forall x :: x in w'.quits ==> x in w.quits || x in Alive(Get(w, kind))
    requires forall x :: x in Alive(Get(w', kind)) ==> x in Alive(Get(w, kind)) || w.next <= x < w'.next
    requires forall x :: (x in Alive(Get(w, kind)) || x in w.quits || w.next <= x < w'.next) ==> x in Alive(Get(w', kind)) || x in w'.quits
    ensures Inv(w')
  {
    hide Alive, Fresh, NoRepeats;
    if kind == Control {
      OtherSide(w.telemetry, Alive(w.control), w, w');
    } else {
      OtherSide(w.control, Alive(w.telemetry), w, w');
    }
  }

  lemma {:induction false} OtherSide(s: Side, others: set<nat>, w: World, w': World)
    requires SideInv(s, w) && Alive(s) !! others && w.next <= w'.next && w.base == w'.base
    requires w.closed == w'.closed && w.attached == w'.attached
    requires forall x :: x in w'.quits ==> x in w.quits || x in others
    ensures SideInv(s, w')
  {
    hide Alive, Fresh, NoRepeats;
  }

  lemma {:induction false} FreshGrows(s: Side, s': Side, base: nat, id: nat)
    requires Alive(s') == Alive(s) + {id} && id !in Alive(s) && id >= base
    ensures |Fresh(s', base)| == |Fresh(s, base)| + 1
  {
    hide Alive;
    assert Fresh(s', base) == Fresh(s, base) + {id};
  }

  /** One more session, the one with the next number, on one side. */
  lemma {:induction false} AddSession(w: World, kind: Kind, w': World)
    requires Inv(w) && w.attached && w' == Put(w, kind, Get(w', kind)).(next := w.next + 1)
    requires var s, s' := Get(w, kind), Get(w', kind);
             && s'.capacity == s.capacity && s'.total == s.total + 1 <= s.capacity
             && NoRepeats(s'.idle) && Elems(s'.idle) !! s'.leased
             && Alive(s') == Alive(s) + {w.next}
    ensures Inv(w')
  {
    Globals(w);
    hide Inv, Alive, Fresh, NoRepeats, Elems;
    var s, s' := Get(w, kind), Get(w', kind);
    FreshGrows(s, s', w.base, w.next);
    assert SideInv(s', w');
    ChangeSide(w, kind, w');
  }

  lemma {:induction false} WarmOneInv(w: World, kind: Kind)
    requires Inv(w) && w.attached && Get(w, kind).total < Get(w, kind).capacity
    ensures Inv(WarmOne(w, kind))
  {
    Globals(w);
    hide Inv;
    var s := Get(w, kind);
    ConcatNoRepeats(s.idle, [w.next]);
    assert Elems([w.next]) == {w.next};
    AddSession(w, kind, WarmOne(w, kind));
  }

  lemma {:induction false} Globals(w: World)
    requires Inv(w)
    ensures NoRepeats(w.quits) && w.base <= w.next && SideInv(w.control, w) && SideInv(w.telemetry, w)
    ensures forall x :: x in w.quits ==> x < w.next
  {}

  lemma {:induction false} TakeIdleInv(w: World, kind: Kind)
    requires Inv(w) && w.attached && Get(w, kind).idle != []
    ensures Inv(CheckoutFrom(w, kind, 0).0)
  {
    var s, w' := Get(w, kind), CheckoutFrom(w, kind, 0).0;
    var s' := Get(w', kind);
    assert SideInv(s, w);
    assert s.idle[0] in s.idle && Elems(s.idle) == {s.idle[0]} + Elems(s.idle[1..]);
    assert Alive(s') == Alive(s);
    hide Inv, Alive, Fresh;
    assert Fresh(s', w'.base) == Fresh(s, w.base) by {
      SameAlive(s', s, w.base);
    }
    assert SideInv(s', w');
    Globals(w);
    ChangeSide(w, kind, w');
  }

  lemma {:induction false} SameAlive(a: Side, b: Side, base: nat)
    requires Alive(a) == Alive(b)
    ensures Fresh(a, base) == Fresh(b, base) && Carried(a, base) == Carried(b, base)
  {}

  lemma {:induction false} SpawnInv(w: World, kind: Kind)
    requires Inv(w) && w.attached && Get(w, kind).idle == [] && Get(w, kind).total < Get(w, kind).capacity
    ensures Inv(CheckoutFrom(w, kind, 1).0)
  {
    Globals(w);
    assert !w.closed;
    hide Inv;
    AddSession(w, kind, CheckoutFrom(w, kind, 1).0);
  }

  lemma {:induction false} ReturnInv(w: World, kind: Kind, id: nat)
    requires Inv(w) && id in Get(w, kind).leased
    ensures Inv(ReturnTo(w, kind, id))
  {
    var s, w' := Get(w, kind), ReturnTo(w, kind, id);
    var s' := Get(w', kind);
    assert SideInv(s, w) && id in Alive(s);
    assert Elems([id]) == {id};
    if w.closed {
      assert Alive(s') == Alive(s) - {id};
      assert id !in w.quits;
      ConcatNoRepeats(w.quits, [id]);
      assert Fresh(s', w'.base) <= Fresh(s, w.base) == {};
    } else {
      ConcatNoRepeats(s.idle, [id]);
      assert Alive(s') == Alive(s);
      SameAlive(s', s, w.base);
    }
    hide Inv, Alive, Fresh, NoRepeats;
    assert SideInv(s', w');
    Globals(w);
    ChangeSide(w, kind, w');
  }

  lemma {:induction false} WarmInv(w: World, kind: Kind, n: nat)
    requires Inv(w) && w.attached && Get(w, kind).total + n <= Get(w, kind).capacity
    ensures var w' := Warm(w, kind, n);
            && Inv(w') && w'.attached && w'.closed == w.closed
            && Get(w', kind).total == Get(w, kind).total + n && Get(w', kind).capacity == Get(w, kind).capacity
            && (forall k :: k != kind ==> Get(w', k) == Get(w, k))
    decreases n
  {
    hide Inv;
    if n > 0 {
      WarmInv(w, kind, n - 1);
      WarmOneInv(Warm(w, kind, n - 1), kind);
    }
  }

  /** Every enabled operation keeps the invariant, whatever the factory does. */
  lemma {:induction false} StepInv(w: World, op: Op)
    requires Inv(w) && Enabled(w, op)
    ensures Inv(Step(w, op))
  {
    match op
    case Attach(spawns) =>
      Globals(w);
      ResetInv(w);
      hide Inv, Warm;
      var start := Reset(w).(attached := true, closed := false);
      WarmInv(start, Control, ControlWarm(w, spawns));
      WarmInv(Warm(start, Control, ControlWarm(w, spawns)), Telemetry, TelemetryWarm(w, spawns));
    case Checkout(kind, spawns) =>
      if !w.closed && w.attached {
        if Get(w, kind).idle != [] {
          TakeIdleInv(w, kind);
        } else if Get(w, kind).total < Get(w, kind).capacity && spawns > 0 {
          SpawnInv(w, kind);
        }
      }
    case Return(kind, id) => ReturnInv(w, kind, id);
    case Shutdown => ResetInv(w);
  }

  /** The world after a sequence of operations, in any interleaving; each must be possible when its turn comes. */
  predicate Reaches(w: World, ops: seq<Op>, w': World)
    decreases |ops|
  {
    if ops == [] then w' == w else Enabled(w, ops[0]) && Reaches(Step(w, ops[0]), ops[1..], w')
  }

  lemma {:induction false} ReachesInv(w: World, ops: seq<Op>, w': World)
    requires Inv(w) && Reaches(w, ops, w')
    ensures Inv(w')
    decreases |ops|
  {
    hide Inv, Step;
    if ops != [] {
      StepInv(w, ops[0]);
      ReachesInv(Step(w, ops[0]), ops[1..], w');
    }
  }

  // ----- what the invariant says -----

  lemma {:induction false} ElemsSize(s: seq<nat>)
    requires NoRepeats(s)
    ensures |Elems(s)| == |s|
    decreases |s|
  {
    if s != [] {
      var n := |s| - 1;
      ElemsSize(s[..n]);
      assert Elems(s) == Elems(s[..n]) + {s[n]};
      assert s[n] !in Elems(s[..n]);
    }
  }

  /** Idle and leased sessions are the pool's total and the sessions carried over the last reset. */
  lemma {:induction false} Accounting(w: World, kind: Kind)
    requires Inv(w)
    ensures var s := Get(w, kind);
            |s.idle| + |s.leased| == s.total + |Carried(s, w.base)| && s.total <= s.capacity
  {
    Globals(w);
    hide Inv, Fresh, Carried, Alive, NoRepeats;
    AliveSizes(Get(w, kind), w.base);
  }

  lemma {:induction false} AliveSizes(s: Side, base: nat)
    requires NoRepeats(s.idle) && Elems(s.idle) !! s.leased
    ensures |s.idle| + |s.leased| == |Alive(s)| == |Fresh(s, base)| + |Carried(s, base)|
  {
    ElemsSize(s.idle);
    hide NoRepeats, Elems;
    assert |Elems(s.idle) + s.leased| == |Elems(s.idle)| + |s.leased|;
    assert Alive(s) == Fresh(s, base) + Carried(s, base) && Fresh(s, base) !! Carried(s, base);
  }

  /** An open pool reports exhaustion exactly when the leases out are its capacity and the carried sessions together. */
  lemma {:induction false} ExhaustedIff(w: World, kind: Kind, spawns: nat)
    requires Inv(w) && w.attached
    ensures var s := Get(w, kind);
            CheckoutFrom(w, kind, spawns).1 == Err(Exhausted) <==> |s.leased| == s.capacity + |Carried(s, w.base)|
  {
    Accounting(w, kind);
    assert !w.closed;
    hide Inv, Carried;
  }

  /**
   While no session crosses a reset, at most capacity sessions are out, and exhaustion means all of them are.
   In general the pool can be over capacity by the carried sessions and by nothing else.
   */
  lemma {:induction false} LeasesBounded(w: World, kind: Kind)
    requires Inv(w)
    ensures var s := Get(w, kind);
            && |s.leased| <= s.capacity + |Carried(s, w.base)|
            && (Carried(s, w.base) == {} ==> |s.leased| <= s.capacity)
  {
    Accounting(w, kind);
    hide Inv, Carried;
  }

  /** Returning never fails to find room: with no carried session the idle queue stays within capacity. */
  lemma {:induction false} IdleBounded(w: World, kind: Kind)
    requires Inv(w) && Carried(Get(w, kind), w.base) == {}
    ensures |Get(w, kind).idle| <= Get(w, kind).capacity
  {
    Accounting(w, kind);
    hide Inv;
  }

  // ----- what it says about runs -----

  predicate Resets(op: Op) {
    op.Attach? || op.Shutdown?
  }

  /** The leases of a kind that were out when a run last attached or shut down; `at` when it never did. */
  function LeasedAtReset(w: World, ops: seq<Op>, kind: Kind, at: set<nat>): set<nat>
    decreases |ops|
  {
    if ops == [] then at
    else LeasedAtReset(Step(w, ops[0]), ops[1..], kind, if Resets(ops[0]) then Get(w, kind).leased else at)
  }

  /** The carried sessions are those of a set that have not quit. */
  predicate CarriedFrom(w: World, kind: Kind, at: set<nat>) {
    Carried(Get(w, kind), w.base) == at - Elems(w.quits)
  }

  /** A reset carries exactly the leases that are out. */
  lemma {:induction false} ResetCarries(w: World, kind: Kind)
    requires Inv(w)
    ensures Carried(Get(Reset(w), kind), Reset(w).base) == Get(w, kind).leased
    ensures CarriedFrom(Reset(w), kind, Get(w, kind).leased)
  {
    var s, w' := Get(w, kind), Reset(w);
    assert SideInv(s, w);
    forall x | x in s.leased ensures x < w.next && x !in w'.quits {
      assert x in Alive(s) && x !in Elems(w.control.idle) && x !in Elems(w.telemetry.idle);
    }
  }

  lemma {:induction false} WarmCarries(w: World, side: Kind, n: nat, kind: Kind, at: set<nat>)
    requires CarriedFrom(w, kind, at) && w.base <= w.next
    ensures CarriedFrom(Warm(w, side, n), kind, at) && w.base == Warm(w, side, n).base <= Warm(w, side, n).next
    decreases n
  {
    if n > 0 {
      WarmCarries(w, side, n - 1, kind, at);
      var before := Warm(w, side, n - 1);
      var after := WarmOne(before, side);
      hide Warm;
      assert Alive(Get(after, kind)) == Alive(Get(before, kind)) + if side == kind then {before.next} else {};
    }
  }

  lemma {:induction false} AttachCarries(w: World, spawns: nat, kind: Kind)
    requires Inv(w)
    ensures CarriedFrom(AttachTo(w, spawns), kind, Get(w, kind).leased)
  {
    ResetCarries(w, kind);
    var start := Reset(w).(attached := true, closed := false);
    assert CarriedFrom(start, kind, Get(w, kind).leased);
    hide Inv, CarriedFrom, Warm;
    WarmCarries(start, Control, ControlWarm(w, spawns), kind, Get(w, kind).leased);
    WarmCarries(Warm(start, Control, ControlWarm(w, spawns)), Telemetry, TelemetryWarm(w, spawns), kind, Get(w, kind).leased);
  }

  lemma {:induction false} CheckoutCarries(w: World, side: Kind, spawns: nat, kind: Kind, at: set<nat>)
    requires CarriedFrom(w, kind, at) && w.base <= w.next
    ensures CarriedFrom(CheckoutFrom(w, side, spawns).0, kind, at)
  {
    var s, s' := Get(w, kind), Get(CheckoutFrom(w, side, spawns).0, kind);
    if s.idle != [] {
      assert s.idle == [s.idle[0]] + s.idle[1..];
    }
    assert Alive(s') == Alive(s) || Alive(s') == Alive(s) + {w.next};
  }

  lemma {:induction false} ReturnCarries(w: World, side: Kind, id: nat, kind: Kind, at: set<nat>)
    requires Inv(w) && CarriedFrom(w, kind, at) && id in Get(w, side).leased
    ensures CarriedFrom(ReturnTo(w, side, id), kind, at)
  {
    var w' := ReturnTo(w, side, id);
    var s, s' := Get(w, kind), Get(w', kind);
    assert SideInv(Get(w, side), w) && SideInv(s, w);
    assert id in Alive(Get(w, side));
    if w.closed {
      assert Elems(w'.quits) == Elems(w.quits) + {id};
      assert Alive(s') == Alive(s) - {id};
      assert Carried(s', w.base) == Carried(s, w.base) - {id};
    } else {
      assert Alive(s') == Alive(s);
    }
  }

  lemma {:induction false} StepCarries(w: World, op: Op, kind: Kind, at: set<nat>)
    requires Inv(w) && Enabled(w, op) && CarriedFrom(w, kind, at)
    ensures CarriedFrom(Step(w, op), kind, if Resets(op) then Get(w, kind).leased else at)
  {
    Globals(w);
    hide CarriedFrom, SideInv;
    match op
    case Attach(spawns) => AttachCarries(w, spawns, kind);
    case Checkout(side, spawns) => CheckoutCarries(w, side, spawns, kind, at);
    case Return(side, id) => ReturnCarries(w, side, id, kind, at);
    case Shutdown => ShutdownCarries(w, kind);
  }

  lemma {:induction false} ShutdownCarries(w: World, kind: Kind)
    requires Inv(w)
    ensures CarriedFrom(Step(w, Shutdown), kind, Get(w, kind).leased)
  {
    ResetCarries(w, kind);
    hide Inv;
  }

  lemma {:induction false} ReachesCarries(w: World, ops: seq<Op>, w': World, kind: Kind, at: set<nat>)
    requires Inv(w) && Reaches(w, ops, w') && CarriedFrom(w, kind, at)
    ensures CarriedFrom(w', kind, LeasedAtReset(w, ops, kind, at))
    decreases |ops|
  {
    hide Inv, Step, CarriedFrom;
    if ops != [] {
      StepInv(w, ops[0]);
      StepCarries(w, ops[0], kind, at);
      ReachesCarries(Step(w, ops[0]), ops[1..], w', kind, if Resets(ops[0]) then Get(w, kind).leased else at);
    }
  }

  /** Carried sessions are the leases that were out at the last reset of the run and have not quit since. */
  lemma {:induction false} CarriedAreLeasedAtReset(control: nat, telemetry: nat, ops: seq<Op>, w: World, kind: Kind)
    requires Reaches(Init(control, telemetry), ops, w)
    ensures Inv(w)
    ensures Carried(Get(w, kind), w.base) == LeasedAtReset(Init(control, telemetry), ops, kind, {}) - Elems(w.quits)
  {
    var start := Init(control, telemetry);
    InitInv(control, telemetry);
    assert CarriedFrom(start, kind, {});
    ReachesInv(start, ops, w);
    ReachesCarries(start, ops, w, kind, {});
    hide Inv, Reaches;
  }

  /** No lease is out whenever a run attaches or shuts down. */
  predicate QuietResets(w: World, ops: seq<Op>)
    decreases |ops|
  {
    ops != [] ==>
      && (Resets(ops[0]) ==> w.control.leased == {} && w.telemetry.leased == {})
      && QuietResets(Step(w, ops[0]), ops[1..])
  }

  lemma {:induction false} QuietCarriesNothing(w: World, ops: seq<Op>, kind: Kind)
    requires QuietResets(w, ops)
    ensures LeasedAtReset(w, ops, kind, {}) == {}
    decreases |ops|
  {
    hide Step;
    if ops != [] {
      QuietCarriesNothing(Step(w, ops[0]), ops[1..], kind);
    }
  }

  /**
   Over any run in which no lease is out when the pool is attached or shut down, at most capacity sessions are out,
   and an open pool says exhausted exactly when all of them are.
   */
  lemma {:induction false} QuietRunBounded(control: nat, telemetry: nat, ops: seq<Op>, w: World, kind: Kind, spawns: nat)
    requires Reaches(Init(control, telemetry), ops, w) && QuietResets(Init(control, telemetry), ops)
    ensures |Get(w, kind).leased| <= Get(w, kind).capacity
    ensures w.attached ==>
              (CheckoutFrom(w, kind, spawns).1 == Err(Exhausted) <==> |Get(w, kind).leased| == Get(w, kind).capacity)
  {
    hide Inv, Reaches, Carried, CheckoutFrom, LeasedAtReset;
    CarriedAreLeasedAtReset(control, telemetry, ops, w, kind);
    QuietCarriesNothing(Init(control, telemetry), ops, kind);
    LeasesBounded(w, kind);
    if w.attached {
      ExhaustedIff(w, kind, spawns);
    }
  }

  /**
   A session handed out at the end of a run is neither quit nor on lease, and was spawned since the last reset
   exactly when it was not on lease at that reset: a lease returned after an attach comes back stale.
   */
  lemma {:induction false} CheckoutIsCurrentIff(control: nat, telemetry: nat, ops: seq<Op>, w: World, kind: Kind, spawns: nat)
    requires Reaches(Init(control, telemetry), ops, w) && CheckoutFrom(w, kind, spawns).1.Ok?
    ensures var id := CheckoutFrom(w, kind, spawns).1.value;
            && id !in w.quits && id !in w.control.leased && id !in w.telemetry.leased
            && (id >= w.base <==> id !in LeasedAtReset(Init(control, telemetry), ops, kind, {}))
  {
    CarriedAreLeasedAtReset(control, telemetry, ops, w, kind);
    hide Reaches, LeasedAtReset;
    CheckoutIsFree(w, kind, spawns);
    hide Inv, CheckoutFrom;
    var id := CheckoutFrom(w, kind, spawns).1.value;
    assert id !in Elems(w.quits);
    assert id in Carried(Get(w, kind), w.base) <==> id in LeasedAtReset(Init(control, telemetry), ops, kind, {});
  }

  lemma {:induction false} CheckoutIsFree(w: World, kind: Kind, spawns: nat)
    requires Inv(w) && CheckoutFrom(w, kind, spawns).1.Ok?
    ensures var id := CheckoutFrom(w, kind, spawns).1.value;
            && id !in w.quits && id !in w.control.leased && id !in w.telemetry.leased
            && (id < w.base ==> id in Carried(Get(w, kind), w.base))
  {
    var s := Get(w, kind);
    if s.idle != [] {
      assert s.idle[0] in Elems(s.idle);
    }
  }

  /** The bound does fail across a reset: attach, lease, attach again, lease again puts two sessions out of a pool of one. */
  lemma {:induction false} OverCapacityAcrossReset()
    ensures exists w :: Reaches(Init(1, 1), [Attach(1), Checkout(Telemetry, 0), Attach(1), Checkout(Telemetry, 0)], w)
                        && w.telemetry.capacity == 1 && |w.telemetry.leased| == 2
  {
    var empty := Side(1, 0, [], {});
    var w1 := World(empty, Side(1, 1, [0], {}), true, false, [], 1, 0);
    var w2 := World(empty, Side(1, 1, [], {0}), true, false, [], 1, 0);
    var w3 := World(empty, Side(1, 1, [1], {0}), true, false, [], 2, 1);
    var w4 := World(empty, Side(1, 1, [], {0, 1}), true, false, [], 2, 1);
    var a, c := Attach(1), Checkout(Telemetry, 0);
    assert Step(Init(1, 1), a) == w1;
    assert Step(w1, c) == w2;
    assert Step(w2, a) == w3;
    assert Step(w3, c) == w4;
    hide Step;
    assert [c][1..] == [] && [a, c][1..] == [c] && [c, a, c][1..] == [a, c] && [a, c, a, c][1..] == [c, a, c];
    assert Reaches(w3, [c], w4);
    assert Reaches(w2, [a, c], w4);
    assert Reaches(w1, [c, a, c], w4);
    assert Reaches(Init(1, 1), [a, c, a, c], w4);
  }

  /** What a checkout answers, in turn: closed, not attached, a session, exhausted, no session made. */
  lemma {:induction false} CheckoutAnswers(w: World, kind: Kind, spawns: nat)
    ensures var s, r := Get(w, kind), CheckoutFrom(w, kind, spawns).1;
            && (r == Err(Closed) <==> w.closed)
            && (r == Err(NotAttached) <==> !w.closed && !w.attached)
            && (!w.closed && w.attached ==>
                  && (r == Err(Exhausted) <==> s.idle == [] && s.total >= s.capacity)
                  && (r == Err(SpawnFailed) <==> s.idle == [] && s.total < s.capacity && spawns == 0))
            && (r.Err? ==> CheckoutFrom(w, kind, spawns).0 == w)
  {}

  /** A new pool has at least one session of each kind to give, and gives none before it is attached. */
  lemma {:induction false} NewPool(control: nat, telemetry: nat, kind: Kind, spawns: nat)
    ensures var w := Init(control, telemetry);
            && w.control.capacity == (if control < 1 then 1 else control)
            && w.telemetry.capacity == (if telemetry < 1 then 1 else telemetry)
            && CheckoutFrom(w, kind, spawns).1 == Err(NotAttached)
            && CheckoutFrom(Step(w, Shutdown), kind, spawns).1 == Err(Closed)
  {}

  /** A lease dropped after a shutdown quits, and is the last to have. */
  lemma {:induction false} ClosedReturnQuits(w: World, kind: Kind, id: nat)
    requires w.closed && id in Get(w, kind).leased
    ensures ReturnTo(w, kind, id) == Put(w, kind, Get(w, kind).(leased := Get(w, kind).leased - {id})).(quits := w.quits + [id])
  {}

  // ----- what an attach makes, and who is handed out -----

  /** `n` session numbers in a row. */
  function Numbers(from: nat, n: nat): (r: seq<nat>)
    ensures |r| == n
  {
    seq(n, i requires 0 <= i < n => from + i)
  }

  lemma {:induction false} WarmIs(w: World, kind: Kind, n: nat)
    ensures var s := Get(w, kind);
            Warm(w, kind, n)
            == Put(w, kind, Side(s.capacity, s.total + n, s.idle + Numbers(w.next, n), s.leased)).(next := w.next + n)
    decreases n
  {
    var s := Get(w, kind);
    if n == 0 {
      assert s.idle + Numbers(w.next, 0) == s.idle;
    } else {
      WarmIs(w, kind, n - 1);
      assert Numbers(w.next, n) == Numbers(w.next, n - 1) + [w.next + n - 1];
      assert s.idle + Numbers(w.next, n - 1) + [w.next + n - 1] == s.idle + Numbers(w.next, n);
    }
  }

  /**
   What an attach leaves: the idle sessions have quit, control first; then one control session short of capacity and
   as many telemetry sessions as its capacity, numbered in the order they were made, fewer when the factory fails.
   */
  lemma {:induction false} AttachMakes(w: World, spawns: nat, control: nat, telemetry: nat)
    requires w.control.capacity >= 1
    requires control == if spawns < w.control.capacity - 1 then spawns else w.control.capacity - 1
    requires telemetry == if spawns - control < w.telemetry.capacity then spawns - control else w.telemetry.capacity
    ensures AttachTo(w, spawns)
            == World(Side(w.control.capacity, control, Numbers(w.next, control), w.control.leased),
                     Side(w.telemetry.capacity, telemetry, Numbers(w.next + control, telemetry), w.telemetry.leased),
                     true, false, w.quits + w.control.idle + w.telemetry.idle, w.next + control + telemetry, w.next)
  {
    hide Warm, Numbers;
    var start := Reset(w).(attached := true, closed := false);
    WarmIs(start, Control, control);
    WarmIs(Warm(start, Control, control), Telemetry, telemetry);
    assert [] + Numbers(w.next, control) == Numbers(w.next, control);
    assert [] + Numbers(w.next + control, telemetry) == Numbers(w.next + control, telemetry);
  }

  /** The sessions that so many checkouts in a row hand out, without the factory. */
  function HandedOut(w: World, kind: Kind, n: nat): seq<nat>
    decreases n
  {
    if n == 0 then []
    else
      var (w', r) := CheckoutFrom(w, kind, 0);
      if r.Err? then [] else [r.value] + HandedOut(w', kind, n - 1)
  }

  /** Idle sessions are handed out oldest first. */
  lemma {:induction false} OldestFirst(w: World, kind: Kind, n: nat)
    requires w.attached && !w.closed && n <= |Get(w, kind).idle|
    ensures HandedOut(w, kind, n) == Get(w, kind).idle[..n]
    decreases n
  {
    if n > 0 {
      var w', idle := CheckoutFrom(w, kind, 0).0, Get(w, kind).idle;
      OldestFirst(w', kind, n - 1);
      assert Get(w', kind).idle == idle[1..];
      assert [idle[0]] + idle[1..][..n - 1] == idle[..n];
    }
  }

  /** A returned session waits behind those that were idle when it came back. */
  lemma {:induction false} ReturnedIsLast(w: World, kind: Kind, id: nat)
    requires w.attached && !w.closed && id in Get(w, kind).leased
    ensures var idle := Get(w, kind).idle;
            HandedOut(ReturnTo(w, kind, id), kind, |idle| + 1) == idle + [id]
  {
    var idle, w' := Get(w, kind).idle, ReturnTo(w, kind, id);
    assert Get(w', kind).idle == idle + [id];
    OldestFirst(w', kind, |idle| + 1);
    assert (idle + [id])[..|idle| + 1] == idle + [id];
  }

  // ----- the pool object -----

  class Pool {
    const controlCapacity: nat
    const telemetryCapacity: nat
    var attached: bool
    var closed: bool
    var controlTotal: nat
    var telemetryTotal: nat
    var controlIdle: seq<nat>
    var telemetryIdle: seq<nat>

    ghost var controlLeased: set<nat>
    ghost var telemetryLeased: set<nat>
    ghost var quits: seq<nat>
    ghost var base: nat
    /** The transport factory's numbering of sessions. */
    var next: nat

    ghost function View(): World
      reads this
    {
      World(Side(controlCapacity, controlTotal, controlIdle, controlLeased),
            Side(telemetryCapacity, telemetryTotal, telemetryIdle, telemetryLeased),
            attached, closed, quits, next, base)
    }

    constructor (control: nat, telemetry: nat)
      ensures View() == Init(control, telemetry)
    {
      controlCapacity := if control == 0 then 1 else control;
      telemetryCapacity := if telemetry == 0 then 1 else telemetry;
      attached, closed, controlTotal, telemetryTotal, controlIdle, telemetryIdle := false, false, 0, 0, [], [];
      controlLeased, telemetryLeased, quits, base, next := {}, {}, [], 0, 0;
    }

    /** `spawn_session`: the factory makes the next session or fails. */
    method SpawnSession() returns (id: Option<nat>)
      modifies this`next
      ensures if id == None then next == old(next) else id == Some(old(next)) && next == old(next) + 1
    {
      if * {
        return None;
      }
      id := Some(next);
      next := next + 1;
    }

    /** `reset_locked` */
    method ResetLocked()
      modifies this
      ensures View() == Reset(old(View()))
    {
      quits := quits + controlIdle + telemetryIdle;
      controlIdle, telemetryIdle := [], [];
      controlTotal, telemetryTotal := 0, 0;
      attached := false;
      base := next;
    }

    /** A warming loop of `attach`: it stops at the first spawn that fails. */
    method WarmUp(kind: Kind, n: nat) returns (made: nat)
      modifies this
      ensures made <= n && View() == Warm(old(View()), kind, made)
    {
      hide WarmOne;
      made := 0;
      while made < n
        invariant made <= n && View() == Warm(old(View()), kind, made)
      {
        ghost var before := View();
        var id := SpawnSession();
        if id.None? {
          return;
        }
        if kind == Control {
          controlIdle := controlIdle + [id.value];
          controlTotal := controlTotal + 1;
        } else {
          telemetryIdle := telemetryIdle + [id.value];
          telemetryTotal := telemetryTotal + 1;
        }
        assert View() == WarmOne(before, kind) by {
          WarmOneIs(before, kind, View());
        }
        made := made + 1;
      }
    }

    static lemma {:induction false} WarmOneIs(w: World, kind: Kind, w': World)
      requires var s := Get(w, kind); w' == Put(w, kind, s.(total := s.total + 1, idle := s.idle + [w.next])).(next := w.next + 1)
      ensures w' == WarmOne(w, kind)
    {}

    /** `attach` */
    method Attach() returns (ok: bool, ghost spawns: nat)
      modifies this
      ensures View() == AttachTo(old(View()), spawns)
      ensures ok <==> spawns == ExtraControl(old(View())) + telemetryCapacity
    {
      hide Warm;
      ResetLocked();
      attached, closed := true, false;
      ghost var start := View();
      var extra := if controlCapacity == 0 then 0 else controlCapacity - 1;
      var controls := WarmUp(Control, extra);
      if controls < extra {
        WarmNone(View(), Telemetry);
        return false, controls;
      }
      var telemetries := WarmUp(Telemetry, telemetryCapacity);
      return telemetries == telemetryCapacity, controls + telemetries;
    }

    static lemma {:induction false} WarmNone(w: World, kind: Kind)
      ensures Warm(w, kind, 0) == w
    {}

    method Checkout(kind: Kind) returns (r: Result<nat, PoolError>, ghost spawns: nat)
      modifies this
      ensures (View(), r) == CheckoutFrom(old(View()), kind, spawns)
    {
      spawns := 0;
      if closed {
        return Err(Closed), 0;
      }
      if !attached {
        return Err(NotAttached), 0;
      }
      match kind {
        case Control =>
          if controlIdle != [] {
            r := Ok(controlIdle[0]);
            controlLeased := controlLeased + {controlIdle[0]};
            controlIdle := controlIdle[1..];
            return;
          }
          if controlTotal >= controlCapacity {
            return Err(Exhausted), 0;
          }
          var id := SpawnSession();
          if id.None? {
            return Err(SpawnFailed), 0;
          }
          controlTotal := controlTotal + 1;
          controlLeased := controlLeased + {id.value};
          return Ok(id.value), 1;
        case Telemetry =>
          if telemetryIdle != [] {
            r := Ok(telemetryIdle[0]);
            telemetryLeased := telemetryLeased + {telemetryIdle[0]};
            telemetryIdle := telemetryIdle[1..];
            return;
          }
          if telemetryTotal >= telemetryCapacity {
            return Err(Exhausted), 0;
          }
          var id := SpawnSession();
          if id.None? {
            return Err(SpawnFailed), 0;
          }
          telemetryTotal := telemetryTotal + 1;
          telemetryLeased := telemetryLeased + {id.value};
          return Ok(id.value), 1;
      }
    }

    /** Dropping a lease. */
    method Return(kind: Kind, id: nat)
      requires id in Get(View(), kind).leased
      modifies this
      ensures View() == ReturnTo(old(View()), kind, id)
    {
      if kind == Control {
        controlLeased := controlLeased - {id};
      } else {
        telemetryLeased := telemetryLeased - {id};
      }
      if closed {
        quits := quits + [id];
        return;
      }
      match kind {
        case Control => controlIdle := controlIdle + [id];
        case Telemetry => telemetryIdle := telemetryIdle + [id];
      }
    }

    method Shutdown()
      modifies this
      ensures View() == Reset(old(View()).(closed := true))
    {
      closed := true;
      ResetLocked();
    }
  }
}
