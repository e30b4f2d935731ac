/**
 Node lifecycle and root reachability of apps/root-task/src/lifecycle.rs, with the client's pre-check of
 apps/cohsh/src/lib.rs: what the current state says about the events so far.
 */
module Lifecycle {
  import opened Outcome

  datatype State = Booting | Degraded | Online | Draining | Quiesced | Offline
  datatype Command = Cordon | Drain | Resume | Quiesce | Reset
  datatype Reason = Boot | Manifest | ByCommand(command: Command) | ByAuto
  datatype Error = InvalidTransition | AutoTransitionDenied | OutstandingLeases(leases: nat)
  datatype Transition = Transition(from: State, to: State)

  datatype CutReason = NoCut | NetworkUnreachable | SessionRevoked | PolicyDenied | LifecycleOffline
  datatype RootSnapshot = RootSnapshot(reachable: bool, lastSeenMs: nat, cutReason: CutReason)

  const FLAG_NETWORK: bv8 := 1
  const FLAG_POLICY: bv8 := 2
  const FLAG_REVOKED: bv8 := 4

  /** The module's static cells. */
  datatype Cells = Cells(
    state: State,
    reason: Reason,
    sinceMs: nat,
    sessionActive: bool,
    lastSeenMs: nat,
    cutFlags: bv8)

  // ----- gates and commands -----

  datatype Gate = Gate(allowOnline: bool, allowDegraded: bool, allowDraining: bool) {
    predicate Allows(state: State) {
      match state
      case Online => allowOnline
      case Degraded => allowDegraded
      case Draining => allowDraining
      case _ => false
    }
  }

  const GATE_NEW_WORK: Gate := Gate(true, true, false)

  function Target(command: Command): State {
    match command
    case Cordon => Draining
    case Drain => Quiesced
    case Resume => Online
    case Quiesce => Quiesced
    case Reset => Booting
  }

  predicate CommandAllowed(state: State, command: Command) {
    match command
    case Cordon => state.Online? || state.Degraded?
    case Drain => state.Draining?
    case Resume => !state.Online?
    case Quiesce => state.Online? || state.Degraded? || state.Draining?
    case Reset => !state.Booting?
  }

  /** The shell's check before it sends a command, on the state it last read. */
  predicate ClientAllows(state: State, command: Command) {
    match command
    case Cordon => state in {Online, Degraded}
    case Drain => state == Draining
    case Resume => state != Online
    case Quiesce => state in {Online, Degraded, Draining}
    case Reset => state != Booting
  }

  function ApplyCommand(c: Cells, command: Command, nowMs: nat, leases: nat): (Cells, Result<Transition, Error>) {
    var to := Target(command);
    if c.state == to then (c, Err(InvalidTransition))
    else if !CommandAllowed(c.state, command) then (c, Err(InvalidTransition))
    else if command in {Drain, Quiesce, Reset} && leases > 0 then (c, Err(OutstandingLeases(leases)))
    else (c.(state := to, reason := ByCommand(command), sinceMs := nowMs), Ok(Transition(c.state, to)))
  }

  function ApplyAuto(c: Cells, autos: seq<Transition>, target: State, nowMs: nat): (Cells, Result<Transition, Error>) {
    if c.state == target then (c, Err(InvalidTransition))
    else if Transition(c.state, target) !in autos then (c, Err(AutoTransitionDenied))
    else (c.(state := target, reason := ByAuto, sinceMs := nowMs), Ok(Transition(c.state, target)))
  }

  // ----- the root session -----

  function FlagOf(reason: CutReason): bv8 {
    match reason
    case NetworkUnreachable => FLAG_NETWORK
    case SessionRevoked => FLAG_REVOKED
    case PolicyDenied => FLAG_POLICY
    case _ => 0
  }

  predicate HasRevoked(flags: bv8) {
    flags & FLAG_REVOKED != 0
  }

  predicate HasPolicy(flags: bv8) {
    flags & FLAG_POLICY != 0
  }

  function With(flags: bv8, flag: bv8): bv8 {
    flags | flag
  }

  function Snapshot(c: Cells): RootSnapshot {
    var offline := c.state.Offline?;
    var reachable := c.sessionActive && !offline;
    var cut :=
      if reachable then NoCut
      else if offline then LifecycleOffline
      else if HasRevoked(c.cutFlags) then SessionRevoked
      else if HasPolicy(c.cutFlags) then PolicyDenied
      else NetworkUnreachable;
    RootSnapshot(reachable, c.lastSeenMs, cut)
  }

  datatype Event =
    | Commanded(command: Command, nowMs: nat, leases: nat)
    | Auto(target: State, nowMs: nat)
    | Activated(nowMs: nat)
    | Activity(nowMs: nat)
    | Cut(cutReason: CutReason)
    | DeniedByPolicy

  function Step(c: Cells, autos: seq<Transition>, e: Event): Cells {
    match e
    case Commanded(command, nowMs, leases) => ApplyCommand(c, command, nowMs, leases).0
    case Auto(target, nowMs) => ApplyAuto(c, autos, target, nowMs).0
    case Activated(nowMs) => c.(sessionActive := true, lastSeenMs := nowMs, cutFlags := 0)
    case Activity(nowMs) => if c.sessionActive then c.(lastSeenMs := nowMs) else c
    case Cut(reason) => c.(sessionActive := false, cutFlags := With(c.cutFlags, FlagOf(reason)))
    case DeniedByPolicy => if c.sessionActive then c else c.(cutFlags := With(c.cutFlags, FLAG_POLICY))
  }

  function Initial(state: State, nowMs: nat): Cells {
    Cells(state, if state.Booting? then Boot else Manifest, nowMs, false, 0, 0)
  }

  /** The node: one method for each function of the source that stores to the static cells. */
  class Node {
    const autos: seq<Transition>
    var state: State
    var reason: Reason
    var sinceMs: nat
    var sessionActive: bool
    var lastSeenMs: nat
    var cutFlags: bv8

    ghost function View(): Cells
      reads this
    {
      Cells(state, reason, sinceMs, sessionActive, lastSeenMs, cutFlags)
    }

    constructor (initial: State, autos: seq<Transition>, nowMs: nat)
      ensures View() == Initial(initial, nowMs) && this.autos == autos
    {
      this.autos := autos;
      state, sinceMs := initial, nowMs;
      reason := if initial.Booting? then Boot else Manifest;
      sessionActive, lastSeenMs, cutFlags := false, 0, 0;
    }

    method StoreState(state: State, sinceMs: nat, reason: Reason)
      modifies this`state, this`sinceMs, this`reason
      ensures this.state == state && this.sinceMs == sinceMs && this.reason == reason
    {
      this.state, this.reason, this.sinceMs := state, reason, sinceMs;
    }

    method Command(command: Command, nowMs: nat, leases: nat) returns (r: Result<Transition, Error>)
      modifies this
      ensures (View(), r) == ApplyCommand(old(View()), command, nowMs, leases)
      ensures View() == Step(old(View()), autos, Commanded(command, nowMs, leases))
    {
      var from, to := state, Target(command);
      if from == to {
        return Err(InvalidTransition);
      }
      if !CommandAllowed(from, command) {
        return Err(InvalidTransition);
      }
      if command in {Drain, Quiesce, Reset} && leases > 0 {
        return Err(OutstandingLeases(leases));
      }
      StoreState(to, nowMs, ByCommand(command));
      return Ok(Transition(from, to));
    }

    method AutoTransition(target: State, nowMs: nat) returns (r: Result<Transition, Error>)
      modifies this
      ensures (View(), r) == ApplyAuto(old(View()), autos, target, nowMs)
      ensures View() == Step(old(View()), autos, Auto(target, nowMs))
    {
      var from := state;
      if from == target {
        return Err(InvalidTransition);
      }
      if Transition(from, target) !in autos {
        return Err(AutoTransitionDenied);
      }
      StoreState(target, nowMs, ByAuto);
      return Ok(Transition(from, target));
    }

    method MarkSessionActive(nowMs: nat)
      modifies this
      ensures View() == Step(old(View()), autos, Activated(nowMs))
    {
      sessionActive, lastSeenMs, cutFlags := true, nowMs, 0;
    }

    method RecordActivity(nowMs: nat)
      modifies this
      ensures View() == Step(old(View()), autos, Activity(nowMs))
    {
      if sessionActive {
        lastSeenMs := nowMs;
      }
    }

    method MarkCut(reason: CutReason)
      modifies this
      ensures View() == Step(old(View()), autos, Cut(reason))
    {
      sessionActive := false;
      match reason {
        case NetworkUnreachable => cutFlags := cutFlags | FLAG_NETWORK;
        case SessionRevoked => cutFlags := cutFlags | FLAG_REVOKED;
        case PolicyDenied => cutFlags := cutFlags | FLAG_POLICY;
        case LifecycleOffline =>
        case NoCut =>
      }
    }

    method MarkPolicyDenied()
      modifies this
      ensures View() == Step(old(View()), autos, DeniedByPolicy)
    {
      if !sessionActive {
        cutFlags := cutFlags | FLAG_POLICY;
      }
    }
  }

  // ----- one command -----

  /**
   A command succeeds exactly when the shell's pre-check lets it through and, for drain, quiesce and reset, no lease
   is outstanding. The server's own test that the target differs from the current state never decides.
   */
  lemma {:induction false} AcceptedIff(c: Cells, command: Command, nowMs: nat, leases: nat)
    ensures ApplyCommand(c, command, nowMs, leases).1.Ok?
            <==> ClientAllows(c.state, command) && (command in {Cordon, Resume} || leases == 0)
    ensures ClientAllows(c.state, command) ==> c.state != Target(command)
    ensures ApplyCommand(c, command, nowMs, leases).1.Err? ==> ApplyCommand(c, command, nowMs, leases).0 == c
  {}

  /** With no lease outstanding the shell's pre-check is the server's answer. */
  lemma {:induction false} PreCheckIsServer(c: Cells, command: Command, nowMs: nat)
    ensures ClientAllows(c.state, command) <==> ApplyCommand(c, command, nowMs, 0).1.Ok?
  {
    AcceptedIff(c, command, nowMs, 0);
  }

  /** The moves a command makes: exactly these, and no others. */
  predicate IsMove(from: State, command: Command, to: State) {
    || (from in {Online, Degraded} && command == Cordon && to == Draining)
    || (from == Draining && command == Drain && to == Quiesced)
    || (from in {Booting, Degraded, Draining, Quiesced, Offline} && command == Resume && to == Online)
    || (from in {Online, Degraded, Draining} && command == Quiesce && to == Quiesced)
    || (from in {Degraded, Online, Draining, Quiesced, Offline} && command == Reset && to == Booting)
  }

  /** With no lease out a command moves along the table, and with one out only cordon and resume do. */
  lemma {:induction false} MovesAre(c: Cells, command: Command, nowMs: nat, leases: nat, to: State)
    ensures ApplyCommand(c, command, nowMs, leases).1 == Ok(Transition(c.state, to))
            <==> IsMove(c.state, command, to) && (leases == 0 || command in {Cordon, Resume})
    ensures var (c', r) := ApplyCommand(c, command, nowMs, leases);
            r.Ok? ==> c' == Cells(r.value.to, ByCommand(command), nowMs, c.sessionActive, c.lastSeenMs, c.cutFlags)
    ensures ApplyCommand(c, command, nowMs, leases).1 == Err(OutstandingLeases(leases))
            <==> leases > 0 && command in {Drain, Quiesce, Reset} && IsMove(c.state, command, Target(command))
  {}

  /** An automatic transition is made exactly when it is configured and goes somewhere else. */
  lemma {:induction false} AutoIs(c: Cells, autos: seq<Transition>, target: State, nowMs: nat)
    ensures var (c', r) := ApplyAuto(c, autos, target, nowMs);
            && (r.Ok? <==> target != c.state && Transition(c.state, target) in autos)
            && (r.Ok? ==> r.value == Transition(c.state, target) && c' == c.(state := target, reason := ByAuto, sinceMs := nowMs))
            && (r == Err(InvalidTransition) <==> target == c.state)
            && (r.Err? ==> c' == c)
  {}

  /** A node starts in its configured state, for the reason of booting or of its manifest, with the root never seen. */
  lemma {:induction false} StartIs(state: State, nowMs: nat)
    ensures var c := Initial(state, nowMs);
            && c.state == state && c.sinceMs == nowMs
            && (c.reason == Boot <==> state == Booting) && (c.reason == Manifest <==> state != Booting)
            && (state != Offline ==> Snapshot(c) == RootSnapshot(false, 0, NetworkUnreachable))
  {}

  // ----- the state as a function of the run -----

  function After(start: Cells, autos: seq<Transition>, h: seq<Event>): Cells
    decreases |h|
  {
    if h == [] then start else Step(After(start, autos, h[..|h| - 1]), autos, h[|h| - 1])
  }

  /** The event changes the lifecycle state, given the cells before it. */
  predicate Moves(c: Cells, autos: seq<Transition>, e: Event) {
    match e
    case Commanded(command, nowMs, leases) => ApplyCommand(c, command, nowMs, leases).1.Ok?
    case Auto(target, nowMs) => ApplyAuto(c, autos, target, nowMs).1.Ok?
    case _ => false
  }

  /** The last event of a run that succeeded as a transition. */
  function LastMove(start: Cells, autos: seq<Transition>, h: seq<Event>): Option<Event>
    decreases |h|
  {
    if h == [] then None
    else
      var before, e := h[..|h| - 1], h[|h| - 1];
      if Moves(After(start, autos, before), autos, e) then Some(e) else LastMove(start, autos, before)
  }

  /** The state a successful transition event leads to. */
  function Destination(e: Event): State {
    match e
    case Commanded(command, _, _) => Target(command)
    case Auto(target, _) => target
    case _ => Booting
  }

  /** The state is where the last successful transition went. */
  lemma {:induction false} StateIsLastMove(start: Cells, autos: seq<Transition>, h: seq<Event>)
    ensures var last := LastMove(start, autos, h);
            && After(start, autos, h).state == (if last.Some? then Destination(last.value) else start.state)
            && (last.Some? ==> last.value.Commanded? || last.value.Auto?)
    decreases |h|
  {
    if h != [] {
      var before, e := h[..|h| - 1], h[|h| - 1];
      StateIsLastMove(start, autos, before);
      StepState(After(start, autos, before), autos, e);
      hide After, Step, Moves;
    }
  }

  lemma {:induction false} StepState(c: Cells, autos: seq<Transition>, e: Event)
    ensures Step(c, autos, e).state == if Moves(c, autos, e) then Destination(e) else c.state
    ensures Moves(c, autos, e) ==> e.Commanded? || e.Auto?
  {}

  /** A client's own account of the state: its pre-check, the leases, and where each command leads. */
  function Replay(state: State, h: seq<Event>): State
    decreases |h|
  {
    if h == [] then state
    else
      var before, e := Replay(state, h[..|h| - 1]), h[|h| - 1];
      if e.Commanded? && ClientAllows(before, e.command) && (e.command in {Cordon, Resume} || e.leases == 0)
      then Target(e.command)
      else before
  }

  /**
   Over any run without automatic transitions, a client that follows the commands with its own pre-check knows the
   server's state; in particular no drain, quiesce or reset took effect with a lease out.
   */
  lemma {:induction false} ReplayIsState(start: Cells, autos: seq<Transition>, h: seq<Event>)
    requires forall i :: 0 <= i < |h| ==> !h[i].Auto?
    ensures After(start, autos, h).state == Replay(start.state, h)
    decreases |h|
  {
    if h != [] {
      var before, e := h[..|h| - 1], h[|h| - 1];
      ReplayIsState(start, autos, before);
      StepState(After(start, autos, before), autos, e);
      if e.Commanded? {
        AcceptedIff(After(start, autos, before), e.command, e.nowMs, e.leases);
      }
      hide After, Step, ApplyCommand, ClientAllows;
    }
  }

  predicate OpensWork(e: Event) {
    (e.Commanded? && e.command.Resume?) || (e.Auto? && (e.target.Online? || e.target.Degraded?))
  }

  /**
   The new-work gate is open exactly when the last successful transition was a resume or an automatic one into
   online or degraded, or there was none and the node started open.
   */
  lemma {:induction false} GateIff(start: Cells, autos: seq<Transition>, h: seq<Event>)
    ensures var last := LastMove(start, autos, h);
            GATE_NEW_WORK.Allows(After(start, autos, h).state)
            <==> if last.Some? then OpensWork(last.value) else GATE_NEW_WORK.Allows(start.state)
  {
    StateIsLastMove(start, autos, h);
  }

  /** A cordon holds: after it succeeds, the gate stays shut while no resume and no automatic transition succeeds. */
  lemma {:induction false} CordonHolds(start: Cells, autos: seq<Transition>, nowMs: nat, leases: nat, h: seq<Event>)
    requires ApplyCommand(start, Cordon, nowMs, leases).1.Ok?
    requires var c := ApplyCommand(start, Cordon, nowMs, leases).0;
             forall i :: 0 <= i < |h| && OpensWork(h[i]) ==> !Moves(After(c, autos, h[..i]), autos, h[i])
    ensures var c := ApplyCommand(start, Cordon, nowMs, leases).0;
            !GATE_NEW_WORK.Allows(After(c, autos, h).state)
  {
    var c := ApplyCommand(start, Cordon, nowMs, leases).0;
    GateIff(c, autos, h);
    LastMoveIsIn(c, autos, h);
  }

  lemma {:induction false} LastMoveIsIn(start: Cells, autos: seq<Transition>, h: seq<Event>)
    ensures LastMove(start, autos, h).Some? ==>
              exists i :: 0 <= i < |h| && h[i] == LastMove(start, autos, h).value && Moves(After(start, autos, h[..i]), autos, h[i])
    decreases |h|
  {
    hide After, Moves;
    if h != [] {
      var before, e := h[..|h| - 1], h[|h| - 1];
      if Moves(After(start, autos, before), autos, e) {
      } else if LastMove(start, autos, before).Some? {
        LastMoveIsIn(start, autos, before);
        var i :| 0 <= i < |before| && before[i] == LastMove(start, autos, before).value
                 && Moves(After(start, autos, before[..i]), autos, before[i]);
        assert before[..i] == h[..i] && before[i] == h[i];
      }
    }
  }

  // ----- root status as a function of the run -----

  /** The events since the last activation; the whole run when there was none. */
  function Since(h: seq<Event>): seq<Event>
    decreases |h|
  {
    if h == [] || h[|h| - 1].Activated? then [] else Since(h[..|h| - 1]) + [h[|h| - 1]]
  }

  predicate EverActivated(h: seq<Event>) {
    exists i :: 0 <= i < |h| && h[i].Activated?
  }

  predicate AnyCut(events: seq<Event>) {
    exists i :: 0 <= i < |events| && events[i].Cut?
  }

  predicate SessionUp(h: seq<Event>) {
    EverActivated(h) && !AnyCut(Since(h))
  }

  predicate Revoked(h: seq<Event>) {
    Cut(SessionRevoked) in Since(h)
  }

  /** A policy cut since the last activation, or a policy denial while no session was up. */
  predicate Denied(h: seq<Event>) {
    var since := Since(h);
    || Cut(PolicyDenied) in since
    || exists i :: 0 <= i < |since| && since[i].DeniedByPolicy? && (!EverActivated(h) || AnyCut(since[..i]))
  }

  /** When the root was last seen: the last activation, or the last activity while the session was up. */
  function LastSeen(h: seq<Event>): nat
    decreases |h|
  {
    if h == [] then 0
    else
      var before, e := h[..|h| - 1], h[|h| - 1];
      if e.Activated? || (e.Activity? && SessionUp(before)) then e.nowMs else LastSeen(before)
  }

  function Status(state: State, h: seq<Event>): RootSnapshot {
    RootSnapshot(
      SessionUp(h) && !state.Offline?,
      LastSeen(h),
      if state.Offline? then LifecycleOffline
      else if SessionUp(h) then NoCut
      else if Revoked(h) then SessionRevoked
      else if Denied(h) then PolicyDenied
      else NetworkUnreachable)
  }

  lemma {:induction false} EverActivatedStep(before: seq<Event>, e: Event)
    ensures EverActivated(before + [e]) <==> EverActivated(before) || e.Activated?
  {
    var h := before + [e];
    assert h[|before|] == e;
    assert forall i :: 0 <= i < |before| ==> h[i] == before[i];
  }

  lemma {:induction false} AnyCutStep(before: seq<Event>, e: Event)
    ensures AnyCut(before + [e]) <==> AnyCut(before) || e.Cut?
  {
    var h := before + [e];
    assert h[|before|] == e;
    assert forall i :: 0 <= i < |before| ==> h[i] == before[i];
  }

  lemma {:induction false} SinceStep(before: seq<Event>, e: Event)
    ensures Since(before + [e]) == if e.Activated? then [] else Since(before) + [e]
  {
    assert (before + [e])[..|before|] == before;
  }

  lemma {:induction false} SessionUpStep(before: seq<Event>, e: Event)
    ensures SessionUp(before + [e]) <==> e.Activated? || (SessionUp(before) && !e.Cut?)
  {
    EverActivatedStep(before, e);
    SinceStep(before, e);
    AnyCutStep(Since(before), e);
    hide EverActivated, Since;
  }

  lemma {:induction false} RevokedStep(before: seq<Event>, e: Event)
    ensures Revoked(before + [e]) <==> !e.Activated? && (Revoked(before) || e == Cut(SessionRevoked))
  {
    SinceStep(before, e);
    hide Since;
  }

  /** A policy denial at `i` counts when no session was up. */
  predicate DenialAt(since: seq<Event>, ever: bool, i: nat) {
    i < |since| && since[i].DeniedByPolicy? && (!ever || AnyCut(since[..i]))
  }

  lemma {:induction false} DenialStep(since: seq<Event>, ever: bool, e: Event)
    ensures (exists i :: DenialAt(since + [e], ever, i))
            <==> (exists i :: DenialAt(since, ever, i)) || (e.DeniedByPolicy? && (!ever || AnyCut(since)))
  {
    hide AnyCut;
    var more := since + [e];
    forall i: nat | i < |since|
      ensures DenialAt(more, ever, i) <==> DenialAt(since, ever, i)
    {
      assert more[..i] == since[..i];
    }
    assert more[..|since|] == since && more[|since|] == e;
    assert DenialAt(more, ever, |since|) <==> e.DeniedByPolicy? && (!ever || AnyCut(since));
  }

  lemma {:induction false} DeniedIs(h: seq<Event>)
    ensures Denied(h) <==> Cut(PolicyDenied) in Since(h) || exists i :: DenialAt(Since(h), EverActivated(h), i)
  {
    hide AnyCut, EverActivated, Since;
    var since := Since(h);
    if i: nat :| DenialAt(since, EverActivated(h), i) {
      assert 0 <= i < |since| && since[i].DeniedByPolicy? && (!EverActivated(h) || AnyCut(since[..i]));
    }
    if Denied(h) && Cut(PolicyDenied) !in since {
      var i :| 0 <= i < |since| && since[i].DeniedByPolicy? && (!EverActivated(h) || AnyCut(since[..i]));
      assert DenialAt(since, EverActivated(h), i);
    }
  }

  lemma {:induction false} DeniedStep(before: seq<Event>, e: Event)
    ensures Denied(before + [e])
            <==> !e.Activated? && (Denied(before) || e == Cut(PolicyDenied) || (e.DeniedByPolicy? && !SessionUp(before)))
  {
    var h := before + [e];
    hide EverActivated, Since, Denied, DenialAt;
    DeniedIs(before);
    DeniedIs(h);
    EverActivatedStep(before, e);
    SinceStep(before, e);
    DenialStep(Since(before), EverActivated(before), e);
    NoDenial(EverActivated(h));
  }

  lemma {:induction false} NoDenial(ever: bool)
    ensures !exists i :: DenialAt([], ever, i)
  {}

  ghost predicate RootCellsAre(c: Cells, h: seq<Event>) {
    && c.sessionActive == SessionUp(h)
    && c.lastSeenMs == LastSeen(h)
    && HasRevoked(c.cutFlags) == Revoked(h)
    && HasPolicy(c.cutFlags) == Denied(h)
  }

  lemma {:induction false} FlagsStep(flags: bv8, reason: CutReason)
    ensures HasRevoked(With(flags, FlagOf(reason))) <==> HasRevoked(flags) || reason.SessionRevoked?
    ensures HasPolicy(With(flags, FlagOf(reason))) <==> HasPolicy(flags) || reason.PolicyDenied?
  {}

  lemma {:induction false} NoFlags()
    ensures !HasRevoked(0) && !HasPolicy(0) && FlagOf(PolicyDenied) == FLAG_POLICY
  {}

  lemma {:induction false} StepRoot(c: Cells, autos: seq<Transition>, e: Event)
    ensures var c' := Step(c, autos, e);
            && (c'.sessionActive <==> e.Activated? || (c.sessionActive && !e.Cut?))
            && c'.lastSeenMs == (if e.Activated? || (e.Activity? && c.sessionActive) then e.nowMs else c.lastSeenMs)
            && (HasRevoked(c'.cutFlags)
                <==> !e.Activated? && (HasRevoked(c.cutFlags) || e == Cut(SessionRevoked)))
            && (HasPolicy(c'.cutFlags)
                <==> !e.Activated? && (|| HasPolicy(c.cutFlags)
                                       || e == Cut(PolicyDenied)
                                       || (e.DeniedByPolicy? && !c.sessionActive)))
  {
    hide HasRevoked, HasPolicy, With, FlagOf, ApplyCommand, ApplyAuto;
    NoFlags();
    match e
    case Commanded(command, nowMs, leases) => CommandKeepsRoot(c, command, nowMs, leases);
    case Auto(target, nowMs) => AutoIs(c, autos, target, nowMs);
    case Cut(reason) => FlagsStep(c.cutFlags, reason);
    case DeniedByPolicy => FlagsStep(c.cutFlags, PolicyDenied);
    case _ =>
  }

  lemma {:induction false} CommandKeepsRoot(c: Cells, command: Command, nowMs: nat, leases: nat)
    ensures var c' := ApplyCommand(c, command, nowMs, leases).0;
            c'.sessionActive == c.sessionActive && c'.lastSeenMs == c.lastSeenMs && c'.cutFlags == c.cutFlags
  {}

  lemma {:induction false} RootCellsStep(c: Cells, autos: seq<Transition>, before: seq<Event>, e: Event)
    requires RootCellsAre(c, before)
    ensures RootCellsAre(Step(c, autos, e), before + [e])
  {
    SessionUpStep(before, e);
    RevokedStep(before, e);
    DeniedStep(before, e);
    assert (before + [e])[..|before|] == before;
    StepRoot(c, autos, e);
    hide SessionUp, Revoked, Denied, Step;
  }

  lemma {:induction false} RootCellsAfter(state: State, nowMs: nat, autos: seq<Transition>, h: seq<Event>)
    ensures RootCellsAre(After(Initial(state, nowMs), autos, h), h)
    decreases |h|
  {
    if h != [] {
      var before, e := h[..|h| - 1], h[|h| - 1];
      assert h == before + [e];
      RootCellsAfter(state, nowMs, autos, before);
      RootCellsStep(After(Initial(state, nowMs), autos, before), autos, before, e);
      hide RootCellsAre;
    }
  }

  /**
   The root snapshot says what happened since the last activation: the node is reachable when a session was activated
   and not cut since, and otherwise the reason is the strongest of the cuts since, a revocation before a policy
   denial before a lost network; going offline outranks them all.
   */
  lemma {:induction false} SnapshotIsHistory(state: State, nowMs: nat, autos: seq<Transition>, h: seq<Event>)
    ensures var c := After(Initial(state, nowMs), autos, h);
            Snapshot(c) == Status(c.state, h)
  {
    RootCellsAfter(state, nowMs, autos, h);
    hide After;
  }
}
