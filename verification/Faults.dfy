/**
 Fault handling of apps/root-task/src/kernel.rs: the bounded registry of faulting threads, the stray-signature
 tracker and the loop that drains the fault endpoint. Register contents, log lines and replies are not modelled.
 */
module Faults {
  import opened Outcome

  const CAPACITY: nat := 8
  const STRAY_CAPACITY: nat := 32
  const MAX_FAULT_REGS: nat := 14
  const U32_MAX: nat := 0xFFFF_FFFF

  type Badge = nat
  datatype Signature = Signature(badge: Badge, tag: nat)

  /** A received message: sender badge, message label, payload length in words, and capability counts. */
  datatype Message = Message(badge: Badge, tag: nat, length: nat, extraCaps: nat, capsUnwrapped: nat)

  datatype Source = Source(badge: Badge, tcb: nat)

  datatype Registry = Registry(
    sources: seq<Source>,
    fatal: seq<Badge>,
    unknown: seq<Badge>,
    suppressed: seq<Badge>,
    tallies: seq<Tally>,
    strays: Strays,
    suspensions: seq<Source>)

  datatype Tally = Tally(badge: Badge, count: nat)

  datatype Strays = Strays(signatures: seq<Signature>, overflowed: bool)

  // ----- messages -----

  predicate Present(m: Message) {
    m.badge != 0 || m.length != 0 || m.tag != 0 || m.extraCaps != 0 || m.capsUnwrapped != 0
  }

  predicate IsFaultLabel(tag: nat) {
    tag <= 9
  }

  function LengthRange(tag: nat): Option<(nat, nat)> {
    match tag
    case 0 => Some((0, 0))
    case 1 => Some((2, MAX_FAULT_REGS))
    case 2 => Some((6, MAX_FAULT_REGS))
    case 3 => Some((6, MAX_FAULT_REGS))
    case 4 => Some((5, MAX_FAULT_REGS))
    case 5 => Some((3, MAX_FAULT_REGS))
    case 6 => Some((2, MAX_FAULT_REGS))
    case 7 => Some((5, MAX_FAULT_REGS))
    case 8 => Some((2, MAX_FAULT_REGS))
    case 9 => Some((1, MAX_FAULT_REGS))
    case _ => None
  }

  predicate LayoutValid(tag: nat, length: nat) {
    var range := LengthRange(tag);
    range.Some? && range.value.0 <= length <= range.value.1
  }

  const MIN_LENGTHS: seq<nat> := [0, 2, 6, 6, 5, 3, 2, 5, 2, 1]

  /** The layouts taken: at least as many words as the label needs and at most fourteen, none for the null fault. */
  lemma {:induction false} LayoutValidIff(tag: nat, length: nat)
    ensures LayoutValid(tag, length) <==> tag <= 9 && MIN_LENGTHS[tag] <= length <= (if tag == 0 then 0 else 14)
    ensures LayoutValid(tag, length) ==> IsFaultLabel(tag)
  {}

  predicate ValidFault(m: Message) {
    m.badge != 0 && IsFaultLabel(m.tag) && LayoutValid(m.tag, m.length)
  }

  // ----- bounded vectors -----

  /** Add an element that is not there yet; a full vector ignores it. */
  function Note(v: seq<Badge>, b: Badge): seq<Badge> {
    if b in v || |v| >= CAPACITY then v else v + [b]
  }

  /** Where the first entry for a badge is, or the length when there is none. */
  function Position(badges: seq<Badge>, b: Badge): (i: nat)
    ensures i <= |badges| && b !in badges[..i] && (i < |badges| ==> badges[i] == b)
    decreases |badges|
  {
    if badges == [] || badges[0] == b then 0 else 1 + Position(badges[1..], b)
  }

  function SourceBadges(sources: seq<Source>): (r: seq<Badge>)
    ensures |r| == |sources| && forall i :: 0 <= i < |r| ==> r[i] == sources[i].badge
  {
    seq(|sources|, i requires 0 <= i < |sources| => sources[i].badge)
  }

  function TallyBadges(tallies: seq<Tally>): (r: seq<Badge>)
    ensures |r| == |tallies| && forall i :: 0 <= i < |r| ==> r[i] == tallies[i].badge
  {
    seq(|tallies|, i requires 0 <= i < |tallies| => tallies[i].badge)
  }

  function Lookup(sources: seq<Source>, b: Badge): Option<Source> {
    var i := Position(SourceBadges(sources), b);
    if i < |sources| then Some(sources[i]) else None
  }

  /** Replace the source with the same badge, else append while there is room. */
  function Registered(sources: seq<Source>, s: Source): seq<Source> {
    var i := Position(SourceBadges(sources), s.badge);
    if i < |sources| then sources[i := s] else if |sources| < CAPACITY then sources + [s] else sources
  }

  function SaturatingSucc(n: nat): nat {
    if n >= U32_MAX then U32_MAX else n + 1
  }

  /** Count one more occurrence: the new tallies and the count reported. */
  function Counted(tallies: seq<Tally>, b: Badge): (seq<Tally>, nat) {
    var i := Position(TallyBadges(tallies), b);
    if i < |tallies| then
      var count := SaturatingSucc(tallies[i].count);
      (tallies[i := Tally(b, count)], count)
    else if |tallies| < CAPACITY then (tallies + [Tally(b, 1)], 1)
    else (tallies, 1)
  }

  function Observed(s: Strays, sig: Signature): Strays {
    if sig in s.signatures then s
    else if |s.signatures| >= STRAY_CAPACITY then Strays(s.signatures[1..] + [sig], true)
    else Strays(s.signatures + [sig], s.overflowed)
  }

  // ----- one message -----

  /** Handle a valid fault from a badge that is not fatal yet. */
  function Fatal(r: Registry, b: Badge): Registry {
    match Lookup(r.sources, b)
    case Some(source) => r.(suspensions := r.suspensions + [source], fatal := Note(r.fatal, b))
    case None => r.(unknown := Note(r.unknown, b), fatal := Note(r.fatal, b))
  }

  function Handle(r: Registry, m: Message): Registry {
    if !ValidFault(m) then r.(strays := Observed(r.strays, Signature(m.badge, m.tag)))
    else if m.badge in r.fatal then r.(suppressed := Note(r.suppressed, m.badge))
    else Fatal(r.(tallies := Counted(r.tallies, m.badge).0), m.badge)
  }

  /** The messages one poll handles: those before the first absent one. */
  function Batch(inbox: seq<Message>): seq<Message>
    decreases |inbox|
  {
    if inbox == [] || !Present(inbox[0]) then [] else [inbox[0]] + Batch(inbox[1..])
  }

  function HandleAll(r: Registry, messages: seq<Message>): Registry
    decreases |messages|
  {
    if messages == [] then r else HandleAll(Handle(r, messages[0]), messages[1..])
  }

  // ----- the code -----

  class StrayTracker {
    var signatures: seq<Signature>
    var overflowed: bool

    ghost function View(): Strays
      reads this
    {
      Strays(signatures, overflowed)
    }

    constructor ()
      ensures View() == Strays([], false)
    {
      signatures, overflowed := [], false;
    }

    method FirstObservation(badge: Badge, tag: nat) returns (first: bool)
      modifies this
      ensures View() == Observed(old(View()), Signature(badge, tag))
      ensures first == (Signature(badge, tag) !in old(signatures))
    {
      var signature := Signature(badge, tag);
      if signature in signatures {
        return false;
      }
      if |signatures| >= STRAY_CAPACITY {
        overflowed := true;
        signatures := signatures[1..];
      }
      signatures := signatures + [signature];
      return true;
    }
  }

  class FaultRegistry {
    var sources: seq<Source>
    var fatalBadges: seq<Badge>
    var unknownBadges: seq<Badge>
    var suppressedBadges: seq<Badge>
    var tallies: seq<Tally>
    const strays: StrayTracker
    /** The TCB suspend calls made, oldest first. */
    var suspensions: seq<Source>

    ghost function View(): Registry
      reads this, strays
    {
      Registry(sources, fatalBadges, unknownBadges, suppressedBadges, tallies, strays.View(), suspensions)
    }

    constructor ()
      ensures View() == EMPTY
      ensures fresh(strays)
    {
      sources, fatalBadges, unknownBadges, suppressedBadges, tallies, suspensions := [], [], [], [], [], [];
      strays := new StrayTracker();
    }

    method RegisterSource(s: Source)
      requires s.badge != 0
      modifies this`sources
      ensures sources == Registered(old(sources), s)
    {
      var i := FindSource(s.badge);
      if i < |sources| {
        sources := sources[i := s];
      } else if |sources| < CAPACITY {
        sources := sources + [s];
      }
    }

    method FindSource(badge: Badge) returns (i: nat)
      ensures i == Position(SourceBadges(sources), badge)
    {
      i := 0;
      while i < |sources| && sources[i].badge != badge
        invariant i <= |sources| && badge !in SourceBadges(sources)[..i]
      {
        i := i + 1;
      }
      PositionIs(SourceBadges(sources), badge, i);
    }

    method LookupSource(badge: Badge) returns (r: Option<Source>)
      ensures r == Lookup(sources, badge)
    {
      var i := FindSource(badge);
      return if i < |sources| then Some(sources[i]) else None;
    }

    method MarkFatal(badge: Badge)
      modifies this`fatalBadges
      ensures fatalBadges == Note(old(fatalBadges), badge)
    {
      if badge !in fatalBadges && |fatalBadges| < CAPACITY {
        fatalBadges := fatalBadges + [badge];
      }
    }

    method MarkUnknown(badge: Badge)
      modifies this`fatalBadges, this`unknownBadges
      ensures fatalBadges == Note(old(fatalBadges), badge)
      ensures unknownBadges == Note(old(unknownBadges), badge)
    {
      if badge !in unknownBadges && |unknownBadges| < CAPACITY {
        unknownBadges := unknownBadges + [badge];
      }
      MarkFatal(badge);
    }

    method MarkSuppressed(badge: Badge) returns (first: bool)
      modifies this`suppressedBadges
      ensures suppressedBadges == Note(old(suppressedBadges), badge)
      ensures first == (badge !in old(suppressedBadges))
    {
      if badge in suppressedBadges {
        return false;
      }
      if |suppressedBadges| < CAPACITY {
        suppressedBadges := suppressedBadges + [badge];
      }
      return true;
    }

    method RecordOccurrence(badge: Badge) returns (count: nat)
      modifies this`tallies
      ensures (tallies, count) == Counted(old(tallies), badge)
    {
      var i := 0;
      while i < |tallies| && tallies[i].badge != badge
        invariant i <= |tallies| && tallies == old(tallies) && badge !in TallyBadges(tallies)[..i]
      {
        i := i + 1;
      }
      PositionIs(TallyBadges(tallies), badge, i);
      if i < |tallies| {
        count := SaturatingSucc(tallies[i].count);
        tallies := tallies[i := Tally(badge, count)];
      } else {
        count := 1;
        if |tallies| < CAPACITY {
          tallies := tallies + [Tally(badge, 1)];
        }
      }
    }

    /** `handle_fatal_fault`: suspend a known sender's thread, or note an unknown one; fatal either way. */
    method HandleFatalFault(badge: Badge, source: Option<Source>)
      requires source == Lookup(sources, badge)
      modifies this
      ensures View() == if badge in old(fatalBadges)
                        then old(View()).(suppressed := Note(old(suppressedBadges), badge))
                        else Fatal(old(View()), badge)
    {
      if badge in fatalBadges {
        var _ := MarkSuppressed(badge);
        return;
      }
      match source {
        case Some(s) =>
          suspensions := suspensions + [s];
          MarkFatal(badge);
        case None =>
          MarkUnknown(badge);
      }
    }

    /** `poll_fault_endpoint` over the messages waiting at the endpoint. */
    method PollFaultEndpoint(inbox: seq<Message>) returns (rest: seq<Message>)
      modifies this, strays
      ensures View() == HandleAll(old(View()), Batch(inbox))
      ensures rest == inbox[Taken(inbox)..]
    {
      rest := inbox;
      while rest != []
        invariant |rest| <= |inbox| && rest == inbox[|inbox| - |rest|..]
        invariant Taken(inbox) == |inbox| - |rest| + Taken(rest)
        invariant HandleAll(old(View()), Batch(inbox)) == HandleAll(View(), Batch(rest))
        decreases |rest|
      {
        var m := rest[0];
        ghost var before := View();
        BatchStep(before, rest);
        rest := rest[1..];
        if !Present(m) {
          return;
        }
        PollOne(m);
      }
    }

    /** One turn of the loop on a message that is present. */
    method PollOne(m: Message)
      modifies this, strays
      ensures View() == Handle(old(View()), m)
    {
      if m.badge == 0 || !IsFaultLabel(m.tag) {
        var _ := strays.FirstObservation(m.badge, m.tag);
        return;
      }
      if !LayoutValid(m.tag, m.length) {
        var _ := strays.FirstObservation(m.badge, m.tag);
        return;
      }
      if m.badge in fatalBadges {
        var _ := MarkSuppressed(m.badge);
        return;
      }
      var _ := RecordOccurrence(m.badge);
      var source := LookupSource(m.badge);
      HandleFatalFault(m.badge, source);
    }
  }

  /** How many messages a poll takes from the endpoint: the batch, and the absent message that ends it. */
  function Taken(inbox: seq<Message>): (r: nat)
    ensures r <= |inbox|
    decreases |inbox|
  {
    if inbox == [] then 0 else if !Present(inbox[0]) then 1 else 1 + Taken(inbox[1..])
  }

  /** The message an empty endpoint answers with. */
  const NOTHING: Message := Message(0, 0, 0, 0, 0)

  /** A poll handles the messages before the first empty one, takes that one too, and leaves the rest. */
  lemma {:induction false} BatchIs(messages: seq<Message>, rest: seq<Message>)
    requires NOTHING !in messages
    ensures Batch(messages + [NOTHING] + rest) == messages == Batch(messages)
    ensures Taken(messages + [NOTHING] + rest) == |messages| + 1 && Taken(messages) == |messages|
    decreases |messages|
  {
    var inbox := messages + [NOTHING] + rest;
    if messages != [] {
      var m := messages[0];
      assert m in messages && Present(m);
      assert inbox[0] == m && inbox[1..] == messages[1..] + [NOTHING] + rest;
      BatchIs(messages[1..], rest);
      assert [m] + messages[1..] == messages;
    }
  }

  lemma {:induction false} BatchStep(r: Registry, inbox: seq<Message>)
    requires inbox != []
    ensures HandleAll(r, Batch(inbox))
            == if !Present(inbox[0]) then r else HandleAll(Handle(r, inbox[0]), Batch(inbox[1..]))
  {
    hide Handle;
    if Present(inbox[0]) {
      assert ([inbox[0]] + Batch(inbox[1..]))[1..] == Batch(inbox[1..]);
    }
  }

  lemma {:induction false} PositionIs(badges: seq<Badge>, b: Badge, i: nat)
    requires i <= |badges| && b !in badges[..i] && (i < |badges| ==> badges[i] == b)
    ensures Position(badges, b) == i
    decreases i
  {
    if i > 0 {
      assert badges[0] in badges[..i];
      assert badges[1..][..i - 1] == badges[..i][1..];
      PositionIs(badges[1..], b, i - 1);
    }
  }

  const EMPTY: Registry := Registry([], [], [], [], [], Strays([], false), [])

  // ----- whole runs -----

  datatype Event = Register(source: Source) | Receive(message: Message)

  function Step(r: Registry, e: Event): Registry {
    match e
    case Register(source) => r.(sources := Registered(r.sources, source))
    case Receive(m) => Handle(r, m)
  }

  /** The registry after a run of registrations and received messages. */
  function After(h: seq<Event>): Registry
    decreases |h|
  {
    if h == [] then EMPTY else Step(After(h[..|h| - 1]), h[|h| - 1])
  }

  /** The badge an event faults, if it is a valid fault. */
  function FaultOf(e: Event): Option<Badge> {
    if e.Receive? && ValidFault(e.message) then Some(e.message.badge) else None
  }

  /** The badges of the valid faults of a run, in order. */
  function Faulting(h: seq<Event>): seq<Badge>
    decreases |h|
  {
    if h == [] then []
    else
      var before := Faulting(h[..|h| - 1]);
      match FaultOf(h[|h| - 1])
      case Some(b) => before + [b]
      case None => before
  }

  /** First occurrences, in order. */
  function Distinct<T(==)>(xs: seq<T>): seq<T>
    decreases |xs|
  {
    if xs == [] then []
    else
      var before := Distinct(xs[..|xs| - 1]);
      if xs[|xs| - 1] in before then before else before + [xs[|xs| - 1]]
  }

  function Front<T>(xs: seq<T>, n: nat): seq<T> {
    if |xs| <= n then xs else xs[..n]
  }

  function Back<T>(xs: seq<T>, n: nat): seq<T> {
    if |xs| <= n then xs else xs[|xs| - n..]
  }

  lemma {:induction false} DistinctIs<T>(xs: seq<T>)
    ensures forall x :: x in Distinct(xs) <==> x in xs
    ensures forall i, j :: 0 <= i < j < |Distinct(xs)| ==> Distinct(xs)[i] != Distinct(xs)[j]
    decreases |xs|
  {
    if xs != [] {
      var init, last := xs[..|xs| - 1], xs[|xs| - 1];
      DistinctIs(init);
      assert xs == init + [last];
    }
  }

  /**
   The fatal list is the first eight distinct badges that sent a valid fault, in the order they first did;
   registrations and strays never change it.
   */
  lemma {:induction false} FatalIsFirstDistinct(h: seq<Event>)
    ensures After(h).fatal == Front(Distinct(Faulting(h)), 8)
    decreases |h|
  {
    if h != [] {
      var before, e := h[..|h| - 1], h[|h| - 1];
      FatalIsFirstDistinct(before);
      StepFatal(After(before), e);
      if FaultOf(e).Some? {
        var faults := Faulting(before);
        assert (faults + [FaultOf(e).value])[..|faults|] == faults;
      }
    }
  }

  lemma {:induction false} StepFatal(r: Registry, e: Event)
    ensures Step(r, e).fatal == if FaultOf(e).Some? then Note(r.fatal, FaultOf(e).value) else r.fatal
  {}

  /** The badges of the valid faults that came from a badge already fatal, in order. */
  function Repeats(h: seq<Event>): seq<Badge>
    decreases |h|
  {
    if h == [] then []
    else
      var before, e := h[..|h| - 1], h[|h| - 1];
      if FaultOf(e).Some? && FaultOf(e).value in After(before).fatal then Repeats(before) + [FaultOf(e).value]
      else Repeats(before)
  }

  /** The badges of the valid faults that were handled with no thread registered, in order. */
  function Strangers(h: seq<Event>): seq<Badge>
    decreases |h|
  {
    if h == [] then []
    else
      var before, e := h[..|h| - 1], h[|h| - 1];
      if FaultOf(e).Some? && FaultOf(e).value !in After(before).fatal && !Known(before, FaultOf(e).value)
      then Strangers(before) + [FaultOf(e).value]
      else Strangers(before)
  }

  lemma {:induction false} StepNoted(r: Registry, e: Event)
    ensures Step(r, e).suppressed == if FaultOf(e).Some? && FaultOf(e).value in r.fatal
                                     then Note(r.suppressed, FaultOf(e).value) else r.suppressed
    ensures Step(r, e).unknown == if FaultOf(e).Some? && FaultOf(e).value !in r.fatal
                                     && Lookup(r.sources, FaultOf(e).value).None?
                                  then Note(r.unknown, FaultOf(e).value) else r.unknown
  {}

  lemma {:induction false} NoteDistinct(xs: seq<Badge>, b: Badge)
    ensures Note(Front(Distinct(xs), CAPACITY), b) == Front(Distinct(xs + [b]), CAPACITY)
  {
    assert (xs + [b])[..|xs|] == xs;
  }

  /** The suppressed list is the first eight distinct repeat offenders, the unknown list the first eight strangers. */
  lemma {:induction false} NotedAreFirstDistinct(h: seq<Event>)
    ensures After(h).suppressed == Front(Distinct(Repeats(h)), 8)
    ensures After(h).unknown == Front(Distinct(Strangers(h)), 8)
    decreases |h|
  {
    if h != [] {
      var before, e := h[..|h| - 1], h[|h| - 1];
      NotedAreFirstDistinct(before);
      StepNoted(After(before), e);
      if FaultOf(e).Some? {
        NoteDistinct(Repeats(before), FaultOf(e).value);
        NoteDistinct(Strangers(before), FaultOf(e).value);
      }
      hide Step, Note, Distinct, Front;
    }
  }

  /** Handling a polled batch is the run extended by receiving its messages. */
  lemma {:induction false} PollExtendsRun(h: seq<Event>, messages: seq<Message>)
    ensures HandleAll(After(h), messages) == After(h + Receives(messages))
    decreases |messages|
  {
    hide Step;
    if messages == [] {
      assert h + Receives(messages) == h;
    } else {
      var h' := h + [Receive(messages[0])];
      assert h'[..|h' | - 1] == h;
      assert After(h') == Handle(After(h), messages[0]) by {
        StepReceive(After(h), messages[0]);
      }
      PollExtendsRun(h', messages[1..]);
      assert h' + Receives(messages[1..]) == h + Receives(messages);
    }
  }

  lemma {:induction false} StepReceive(r: Registry, m: Message)
    ensures Step(r, Receive(m)) == Handle(r, m)
  {}

  function Receives(messages: seq<Message>): seq<Event> {
    seq(|messages|, i requires 0 <= i < |messages| => Receive(messages[i]))
  }

  /** A badge is fatal exactly when it has sent a valid fault, as long as at most eight distinct badges have. */
  lemma {:induction false} FatalIffFaulted(h: seq<Event>)
    ensures (forall b :: b in After(h).fatal <==> b in Faulting(h)) <==> |Distinct(Faulting(h))| <= 8
  {
    FatalIsFirstDistinct(h);
    DistinctIs(Faulting(h));
    var distinct := Distinct(Faulting(h));
    if |distinct| > CAPACITY {
      var missed := distinct[CAPACITY];
      assert missed in Faulting(h) && missed !in distinct[..CAPACITY];
    }
  }

  /** The tallies hold the fatal badges, each counted once. */
  lemma {:induction false} TalliesAreFatal(h: seq<Event>)
    ensures TallyBadges(After(h).tallies) == After(h).fatal
    ensures forall t :: t in After(h).tallies ==> t.count == 1
    decreases |h|
  {
    if h != [] {
      var before, e := h[..|h| - 1], h[|h| - 1];
      TalliesAreFatal(before);
      TalliesStep(After(before), e);
    }
  }

  lemma {:induction false} TalliesStep(r: Registry, e: Event)
    requires TallyBadges(r.tallies) == r.fatal && forall t :: t in r.tallies ==> t.count == 1
    ensures TallyBadges(Step(r, e).tallies) == Step(r, e).fatal
    ensures forall t :: t in Step(r, e).tallies ==> t.count == 1
  {
    StepFatal(r, e);
    StepTallies(r, e);
  }

  lemma {:induction false} StepTallies(r: Registry, e: Event)
    ensures Step(r, e).tallies == if FaultOf(e).Some? && FaultOf(e).value !in r.fatal
                                  then Counted(r.tallies, FaultOf(e).value).0 else r.tallies
  {}

  /** The occurrence count handed to the fault report is always 1. */
  lemma {:induction false} CountIsAlwaysOne(h: seq<Event>, b: Badge)
    requires b !in After(h).fatal
    ensures Counted(After(h).tallies, b).1 == 1
  {
    TalliesAreFatal(h);
  }

  /** The tallies after counting these badges one by one. */
  function CountAll(badges: seq<Badge>): seq<Tally>
    decreases |badges|
  {
    if badges == [] then [] else Counted(CountAll(badges[..|badges| - 1]), badges[|badges| - 1]).0
  }

  function Occurrences(badges: seq<Badge>, b: Badge): nat
    decreases |badges|
  {
    if badges == [] then 0
    else Occurrences(badges[..|badges| - 1], b) + if badges[|badges| - 1] == b then 1 else 0
  }

  function CountFor(tallies: seq<Tally>, b: Badge): nat {
    var i := Position(TallyBadges(tallies), b);
    if i < |tallies| then tallies[i].count else 0
  }

  lemma {:induction false} CountForIs(tallies: seq<Tally>, b: Badge)
    ensures b !in TallyBadges(tallies) ==> CountFor(tallies, b) == 0
    ensures Position(TallyBadges(tallies), b) < |tallies| <==> b in TallyBadges(tallies)
  {
    var badges := TallyBadges(tallies);
    assert badges[..|badges|] == badges;
  }

  lemma {:induction false} CountedIs(tallies: seq<Tally>, b: Badge, c: Badge)
    ensures TallyBadges(Counted(tallies, b).0) == Note(TallyBadges(tallies), b)
    ensures Counted(tallies, b).1
            == if b in TallyBadges(tallies) && CountFor(tallies, b) >= 0xFFFF_FFFF then 0xFFFF_FFFF else CountFor(tallies, b) + 1
    ensures CountFor(Counted(tallies, b).0, c)
            == if c != b then CountFor(tallies, c)
               else if b in Note(TallyBadges(tallies), b) then Counted(tallies, b).1 else 0
  {
    var badges := TallyBadges(tallies);
    CountForIs(tallies, b);
    CountForIs(tallies, c);
    if b in badges {
      var i := Position(badges, b);
      assert TallyBadges(Counted(tallies, b).0) == badges;
      hide Position;
    } else if |tallies| < CAPACITY {
      assert TallyBadges(tallies + [Tally(b, 1)]) == badges + [b];
      PositionPush(badges, b, c);
      hide Position;
    } else {
      hide Position;
    }
  }

  /** Counting alone: each of the first eight distinct badges has its number of occurrences, up to the largest 32-bit one. */
  lemma {:induction false} CountAllIs(badges: seq<Badge>, b: Badge)
    ensures TallyBadges(CountAll(badges)) == Front(Distinct(badges), 8)
    ensures CountFor(CountAll(badges), b)
            == if !AmongFirst(badges, b) then 0
               else if Occurrences(badges, b) < 0xFFFF_FFFF then Occurrences(badges, b) else 0xFFFF_FFFF
    decreases |badges|
  {
    if badges != [] {
      var n := |badges| - 1;
      var before, last := badges[..n], badges[n];
      CountAllIs(before, b);
      CountAllIs(before, last);
      CountedIs(CountAll(before), last, b);
      NoteDistinct(before, last);
      assert before + [last] == badges;
      SeenOnce(before, last);
      hide Counted, CountFor, Distinct, Front;
    } else {
      CountForIs([], b);
    }
  }

  lemma {:induction false} SeenOnce(badges: seq<Badge>, b: Badge)
    ensures AmongFirst(badges + [b], b) && !AmongFirst(badges, b) ==> Occurrences(badges, b) == 0
  {
    DistinctIs(badges);
    assert (badges + [b])[..|badges|] == badges;
    if b !in badges {
      NoOccurrence(badges, b);
    }
  }

  lemma {:induction false} NoOccurrence(badges: seq<Badge>, b: Badge)
    requires b !in badges
    ensures Occurrences(badges, b) == 0
    decreases |badges|
  {
    if badges != [] {
      NoOccurrence(badges[..|badges| - 1], b);
    }
  }

  // ----- suspensions -----

  function CountOf(sources: seq<Source>, b: Badge): nat
    decreases |sources|
  {
    if sources == [] then 0
    else CountOf(sources[..|sources| - 1], b) + if sources[|sources| - 1].badge == b then 1 else 0
  }

  predicate Known(h: seq<Event>, b: Badge) {
    Lookup(After(h).sources, b).Some?
  }

  /** How many valid faults a badge sent while its thread was registered. */
  function KnownFaults(h: seq<Event>, b: Badge): nat
    decreases |h|
  {
    if h == [] then 0
    else
      var before := h[..|h| - 1];
      KnownFaults(before, b) + if FaultOf(h[|h| - 1]) == Some(b) && Known(before, b) then 1 else 0
  }

  /** Whether a badge's thread was registered when it first sent a valid fault. */
  predicate KnownAtFirst(h: seq<Event>, b: Badge)
    decreases |h|
  {
    h != [] &&
    var before := h[..|h| - 1];
    if b in Faulting(before) then KnownAtFirst(before, b)
    else FaultOf(h[|h| - 1]) == Some(b) && Known(before, b)
  }

  lemma {:induction false} StepSuspensions(r: Registry, e: Event, b: Badge)
    ensures CountOf(Step(r, e).suspensions, b)
            == CountOf(r.suspensions, b)
               + if FaultOf(e) == Some(b) && b !in r.fatal && Lookup(r.sources, b).Some? then 1 else 0
  {
    if FaultOf(e).Some? && FaultOf(e).value !in r.fatal && Lookup(r.sources, FaultOf(e).value).Some? {
      var source := Lookup(r.sources, FaultOf(e).value).value;
      assert (r.suspensions + [source])[..|r.suspensions|] == r.suspensions;
    }
  }

  lemma {:induction false} NoFaultNoneKnown(h: seq<Event>, b: Badge)
    requires b !in Faulting(h)
    ensures KnownFaults(h, b) == 0
    decreases |h|
  {
    hide After;
    if h != [] {
      var before, e := h[..|h| - 1], h[|h| - 1];
      if FaultOf(e).Some? {
        assert Faulting(h) == Faulting(before) + [FaultOf(e).value];
      }
      NoFaultNoneKnown(before, b);
    }
  }

  /**
   How often a badge's thread is suspended over a run: a fatal badge once if its thread was registered when it
   first faulted and never otherwise, any other badge once for every valid fault while registered.
   */
  lemma {:induction false} SuspensionCount(h: seq<Event>, b: Badge)
    ensures CountOf(After(h).suspensions, b)
            == if b in After(h).fatal then (if KnownAtFirst(h, b) then 1 else 0) else KnownFaults(h, b)
    decreases |h|
  {
    if h != [] {
      var before, e := h[..|h| - 1], h[|h| - 1];
      SuspensionCount(before, b);
      StepSuspensions(After(before), e, b);
      StepFatal(After(before), e);
      FatalIsFirstDistinct(before);
      DistinctIs(Faulting(before));
      hide After, Step, Distinct, Faulting, CountOf;
      if b !in Faulting(before) {
        NoFaultNoneKnown(before, b);
      }
    }
  }

  // ----- which threads -----

  /** The badges registered in a run, in order. */
  function Registrations(h: seq<Event>): seq<Badge>
    decreases |h|
  {
    if h == [] then []
    else
      var before, e := Registrations(h[..|h| - 1]), h[|h| - 1];
      if e.Register? then before + [e.source.badge] else before
  }

  /** The thread last registered for a badge. */
  function LastThread(h: seq<Event>, b: Badge): nat
    decreases |h|
  {
    if h == [] then 0
    else
      var e := h[|h| - 1];
      if e.Register? && e.source.badge == b then e.source.tcb else LastThread(h[..|h| - 1], b)
  }

  /** Among the first eight distinct badges: those a bounded list has room for. */
  predicate AmongFirst(badges: seq<Badge>, b: Badge) {
    b in Front(Distinct(badges), 8)
  }

  /**
   The threads a run stops, told from its events alone: a valid fault from a badge that is not among the first eight to
   fault, and is among the first eight to register, stops the thread last registered for it.
   */
  function Stopped(h: seq<Event>): seq<Source>
    decreases |h|
  {
    if h == [] then []
    else
      var before, e := h[..|h| - 1], h[|h| - 1];
      if e.Receive? && ValidFault(e.message)
         && !AmongFirst(Faulting(before), e.message.badge) && AmongFirst(Registrations(before), e.message.badge)
      then Stopped(before) + [Source(e.message.badge, LastThread(before, e.message.badge))]
      else Stopped(before)
  }

  lemma {:induction false} PositionPush(badges: seq<Badge>, x: Badge, b: Badge)
    ensures Position(badges + [x], b) == if b in badges then Position(badges, b) else if b == x then |badges| else |badges| + 1
  {
    var i := Position(badges, b);
    if b in badges {
      assert badges[..|badges|] == badges && i < |badges|;
      assert (badges + [x])[..i] == badges[..i];
      PositionIs(badges + [x], b, i);
    } else {
      assert (badges + [x])[..|badges|] == badges;
      PositionIs(badges + [x], b, if b == x then |badges| else |badges| + 1);
    }
  }

  lemma {:induction false} LookupIs(sources: seq<Source>, b: Badge)
    ensures Lookup(sources, b).Some? <==> b in SourceBadges(sources)
    ensures Lookup(sources, b).Some? ==> Lookup(sources, b).value.badge == b
  {
    var badges := SourceBadges(sources);
    var i := Position(badges, b);
    if i == |badges| {
      assert badges[..i] == badges;
    }
  }

  /** Registering: a badge that is held gets the new thread, a new one is added while there is room; others keep theirs. */
  lemma {:induction false} RegisteredIs(sources: seq<Source>, s: Source, b: Badge)
    ensures SourceBadges(Registered(sources, s)) == Note(SourceBadges(sources), s.badge)
    ensures Lookup(Registered(sources, s), b)
            == if b == s.badge && b in Note(SourceBadges(sources), b) then Some(s) else Lookup(sources, b)
  {
    var badges := SourceBadges(sources);
    var i := Position(badges, s.badge);
    LookupIs(sources, s.badge);
    hide Position;
    if i < |sources| {
      assert SourceBadges(sources[i := s]) == badges;
      if b == s.badge {
      } else if Position(badges, b) < |badges| {
        assert badges[Position(badges, b)] == b;
      }
    } else if |sources| < CAPACITY {
      assert badges[..i] == badges;
      assert SourceBadges(sources + [s]) == badges + [s.badge];
      PositionPush(badges, s.badge, b);
      if b in badges {
        LookupIs(sources, b);
      } else {
        LookupIs(sources, b);
      }
    } else {
      assert badges[..i] == badges;
    }
  }

  lemma {:induction false} StepSourcesIs(r: Registry, e: Event)
    ensures Step(r, e).sources == if e.Register? then Registered(r.sources, e.source) else r.sources
  {}

  /** What the registry knows of a badge: the thread last registered for it, if it was among the first eight to register. */
  lemma {:induction false} LookupIsLast(h: seq<Event>, b: Badge)
    ensures SourceBadges(After(h).sources) == Front(Distinct(Registrations(h)), CAPACITY)
    ensures Lookup(After(h).sources, b) == if AmongFirst(Registrations(h), b) then Some(Source(b, LastThread(h, b))) else None
    decreases |h|
  {
    if h != [] {
      var before, e := h[..|h| - 1], h[|h| - 1];
      LookupIsLast(before, b);
      StepSourcesIs(After(before), e);
      hide Step, Lookup, Registered;
      if e.Register? {
        RegisteredIs(After(before).sources, e.source, b);
        NoteDistinct(Registrations(before), e.source.badge);
        LookupIs(After(h).sources, b);
        hide Distinct, Front;
      }
    } else {
      LookupIs([], b);
      hide Lookup;
      assert SourceBadges([]) == [];
    }
  }

  lemma {:induction false} StepStops(r: Registry, e: Event)
    ensures Step(r, e).suspensions
            == if FaultOf(e).Some? && FaultOf(e).value !in r.fatal && Lookup(r.sources, FaultOf(e).value).Some?
               then r.suspensions + [Lookup(r.sources, FaultOf(e).value).value]
               else r.suspensions
  {}

  /** Over any run, the threads suspended, in order. */
  lemma {:induction false} SuspensionsAre(h: seq<Event>)
    ensures After(h).suspensions == Stopped(h)
    decreases |h|
  {
    if h != [] {
      var before, e := h[..|h| - 1], h[|h| - 1];
      SuspensionsAre(before);
      StepStops(After(before), e);
      FatalIsFirstDistinct(before);
      if FaultOf(e).Some? {
        LookupIsLast(before, FaultOf(e).value);
      }
      hide Step, Lookup, Distinct, Front, ValidFault;
    }
  }

  /** A thread is suspended more than once exactly when its badge is not fatal and faulted twice while registered. */
  lemma {:induction false} SuspendedAgainIff(h: seq<Event>, b: Badge)
    ensures CountOf(After(h).suspensions, b) > 1 <==> b !in After(h).fatal && KnownFaults(h, b) > 1
  {
    SuspensionCount(h, b);
  }

  /** With at most eight distinct faulting badges no thread is suspended twice, and an unfaulting one never. */
  lemma {:induction false} SuspendedAtMostOnce(h: seq<Event>, b: Badge)
    requires |Distinct(Faulting(h))| <= CAPACITY
    ensures CountOf(After(h).suspensions, b) == if b in Faulting(h) && KnownAtFirst(h, b) then 1 else 0
  {
    SuspensionCount(h, b);
    FatalIffFaulted(h);
    if b !in Faulting(h) {
      NoFaultNoneKnown(h, b);
    }
  }

  /** Once the fatal list is full, a registered thread outside it is suspended again for every fault it sends. */
  lemma {:induction false} FullListSuspendsAgain(h: seq<Event>, m: Message)
    requires |After(h).fatal| == CAPACITY && ValidFault(m) && m.badge !in After(h).fatal && Known(h, m.badge)
    ensures var h' := h + [Receive(m), Receive(m)];
            CountOf(After(h').suspensions, m.badge) == CountOf(After(h).suspensions, m.badge) + 2
  {
    var h1 := h + [Receive(m)];
    var h2 := h1 + [Receive(m)];
    assert h2 == h + [Receive(m), Receive(m)];
    assert h1[..|h1| - 1] == h && h2[..|h2| - 1] == h1;
    StepSuspensions(After(h), Receive(m), m.badge);
    StepSuspensions(After(h1), Receive(m), m.badge);
    StepFatal(After(h), Receive(m));
    StepSources(After(h), m);
    hide Step;
  }

  /** Badge 9 registers, then badges 1 to `n`, never registered, fault. */
  function StrangersFault(n: nat): seq<Event> {
    if n == 0 then [Register(Source(9, 1))] else StrangersFault(n - 1) + [Receive(Message(n, 5, 3, 0, 0))]
  }

  lemma {:induction false} StrangersFaultIs(n: nat)
    requires n <= CAPACITY
    ensures var r := After(StrangersFault(n));
            r.sources == [Source(9, 1)] && r.suspensions == []
            && |r.fatal| == n && forall b :: b in r.fatal <==> 1 <= b <= n
    decreases n
  {
    hide Step, After;
    if n == 0 {
      RegisterFirst(Source(9, 1));
    } else {
      StrangersFaultIs(n - 1);
      AfterPush(StrangersFault(n - 1), Receive(Message(n, 5, 3, 0, 0)));
      StrangerStep(After(StrangersFault(n - 1)), n);
    }
  }

  lemma {:induction false} AfterPush(h: seq<Event>, e: Event)
    ensures After(h + [e]) == Step(After(h), e)
  {
    hide Step;
    assert (h + [e])[..|h|] == h;
  }

  lemma {:induction false} RegisterFirst(source: Source)
    ensures After([Register(source)]) == EMPTY.(sources := [source])
  {
    AfterPush([], Register(source));
    assert [] + [Register(source)] == [Register(source)];
    PositionIs(SourceBadges([]), source.badge, 0);
    assert [] + [source] == [source];
  }

  lemma {:induction false} StrangerStep(r: Registry, n: nat)
    requires 1 <= n <= CAPACITY && r.sources == [Source(9, 1)] && n !in r.fatal && |r.fatal| < CAPACITY
    ensures var r' := Step(r, Receive(Message(n, 5, 3, 0, 0)));
            r'.sources == r.sources && r'.suspensions == r.suspensions && r'.fatal == r.fatal + [n]
  {
    PositionIs(SourceBadges(r.sources), n, 1);
  }

  /** A concrete run: after eight strangers have faulted, the registered badge 9 is suspended twice for two faults. */
  lemma {:induction false} NinthBadgeSuspendedTwice()
    ensures var fault := Receive(Message(9, 5, 3, 0, 0));
            var h := StrangersFault(8) + [fault, fault];
            CountOf(After(h).suspensions, 9) == 2 && KnownFaults(h, 9) > 1 && 9 !in After(h).fatal
  {
    var h, m := StrangersFault(8), Message(9, 5, 3, 0, 0);
    StrangersFaultIs(8);
    PositionIs(SourceBadges([Source(9, 1)]), 9, 0);
    assert Known(h, 9);
    hide After, StrangersFault;
    FullListSuspendsAgain(h, m);
    SuspendedAgainIff(h + [Receive(m), Receive(m)], 9);
  }

  lemma {:induction false} StepSources(r: Registry, m: Message)
    ensures Step(r, Receive(m)).sources == r.sources
  {}

  // ----- strays -----

  /** The signatures of the messages a run took for strays. */
  function StraySignatures(h: seq<Event>): seq<Signature>
    decreases |h|
  {
    if h == [] then []
    else
      var before := StraySignatures(h[..|h| - 1]);
      match h[|h| - 1]
      case Register(_) => before
      case Receive(m) => if ValidFault(m) then before else before + [Signature(m.badge, m.tag)]
  }

  /** The observations answered "first": those not among the last 32 so answered. */
  function Accepted(obs: seq<Signature>): seq<Signature>
    decreases |obs|
  {
    if obs == [] then []
    else
      var before := Accepted(obs[..|obs| - 1]);
      if obs[|obs| - 1] in Back(before, 32) then before else before + [obs[|obs| - 1]]
  }

  /** The tracker holds the last 32 accepted signatures and says whether more were ever accepted. */
  lemma {:induction false} StraysAreLastAccepted(h: seq<Event>)
    ensures var accepted := Accepted(StraySignatures(h));
            After(h).strays == Strays(Back(accepted, 32), |accepted| > 32)
    decreases |h|
  {
    if h != [] {
      var before, e := h[..|h| - 1], h[|h| - 1];
      StraysAreLastAccepted(before);
      StepStrays(After(before), e);
      hide Step, ValidFault;
      if e.Receive? && !ValidFault(e.message) {
        AcceptedPush(StraySignatures(before), Signature(e.message.badge, e.message.tag));
      }
      hide Observed, Back, Accepted;
    }
  }

  /** Observing a signature and accepting it are the same change. */
  lemma {:induction false} AcceptedPush(obs: seq<Signature>, sig: Signature)
    ensures var accepted, more := Accepted(obs), Accepted(obs + [sig]);
            Observed(Strays(Back(accepted, STRAY_CAPACITY), |accepted| > STRAY_CAPACITY), sig)
            == Strays(Back(more, STRAY_CAPACITY), |more| > STRAY_CAPACITY)
  {
    assert (obs + [sig])[..|obs|] == obs;
  }

  lemma {:induction false} StepStrays(r: Registry, e: Event)
    ensures Step(r, e).strays == if e.Receive? && !ValidFault(e.message)
                                 then Observed(r.strays, Signature(e.message.badge, e.message.tag)) else r.strays
  {}

  /** While at most 32 distinct signatures have been seen, the accepted ones are exactly the distinct ones. */
  lemma {:induction false} FewAreAccepted(obs: seq<Signature>)
    requires |Distinct(obs)| <= STRAY_CAPACITY
    ensures Accepted(obs) == Distinct(obs)
    decreases |obs|
  {
    if obs != [] {
      FewAreAccepted(obs[..|obs| - 1]);
    }
  }

  function Elements<T>(xs: seq<T>): set<T> {
    set x | x in xs
  }

  lemma {:induction false} ElementsBounded<T>(xs: seq<T>)
    ensures |Elements(xs)| <= |xs|
    ensures (forall i, j :: 0 <= i < j < |xs| ==> xs[i] != xs[j]) ==> |Elements(xs)| == |xs|
    decreases |xs|
  {
    if xs != [] {
      var init, last := xs[..|xs| - 1], xs[|xs| - 1];
      ElementsBounded(init);
      assert xs == init + [last];
      assert Elements(xs) == Elements(init) + {last};
    }
  }

  lemma {:induction false} SubsetSize<T>(a: set<T>, b: set<T>)
    requires a <= b
    ensures |a| <= |b|
    decreases |a|
  {
    if a != {} {
      var x :| x in a;
      SubsetSize(a - {x}, b - {x});
    }
  }

  /**
   "First" means never seen before, for whichever signature comes next, exactly while at most 32 distinct
   signatures have been seen.
   */
  lemma {:induction false} FirstIsNeverSeenIff(h: seq<Event>)
    ensures var obs := StraySignatures(h);
            (forall s: Signature :: s !in After(h).strays.signatures <==> s !in obs) <==> |Distinct(obs)| <= 32
  {
    StraysAreLastAccepted(h);
    var obs := StraySignatures(h);
    hide StraySignatures, After;
    DistinctIs(obs);
    if |Distinct(obs)| <= STRAY_CAPACITY {
      FewAreAccepted(obs);
      forall s: Signature
        ensures s !in After(h).strays.signatures <==> s !in obs
      {
        assert s in Distinct(obs) <==> s in obs;
      }
    } else {
      var kept := Back(Accepted(obs), STRAY_CAPACITY);
      if forall s: Signature :: s !in kept <==> s !in obs {
        assert Elements(Distinct(obs)) <= Elements(kept);
        SubsetSize(Elements(Distinct(obs)), Elements(kept));
        ElementsBounded(Distinct(obs));
        ElementsBounded(kept);
      }
    }
  }
}
