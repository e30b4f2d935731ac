/** The bounded offline spool and the bus adapter of apps/sidecar-bus/src/lib.rs. */
module Spool {
  import opened Outcome
  import Utf8

  const USIZE_MAX: nat := 0xFFFF_FFFF_FFFF_FFFF
  const U64_MAX: nat := 0xFFFF_FFFF_FFFF_FFFF

  type Payload = seq<Utf8.byte>
  datatype Config = Config(maxEntries: nat, maxBytes: nat)
  datatype SpoolError = Full | Oversize(requested: nat, maxBytes: nat)
  datatype Frame = Frame(seqNo: nat, payload: Payload)
  datatype Link = Online | Offline
  datatype SpoolResult = Delivered | Queued(seqNo: nat)

  datatype Spooled = Spooled(queue: seq<Frame>, bytes: nat, nextSeq: nat)

  function Saturated(n: nat, max: nat): nat {
    if n > max then max else n
  }

  /** Why a payload is refused, if it is, with so many frames and bytes already held. */
  function Refusal(config: Config, entries: nat, bytes: nat, size: nat): Option<SpoolError> {
    if size > config.maxBytes then Some(Oversize(size, config.maxBytes))
    else if entries >= config.maxEntries || Saturated(bytes + size, USIZE_MAX) > config.maxBytes then Some(Full)
    else None
  }

  function Push(config: Config, s: Spooled, payload: Payload): (Spooled, Result<Frame, SpoolError>) {
    match Refusal(config, |s.queue|, s.bytes, |payload|)
    case Some(e) => (s, Err(e))
    case None =>
      var frame := Frame(s.nextSeq, payload);
      (Spooled(s.queue + [frame], s.bytes + |payload|, Saturated(s.nextSeq + 1, U64_MAX)), Ok(frame))
  }

  class OfflineSpool {
    const config: Config
    var queue: seq<Frame>
    var bytes: nat
    var nextSeq: nat

    ghost function View(): Spooled
      reads this
    {
      Spooled(queue, bytes, nextSeq)
    }

    constructor (config: Config)
      ensures this.config == config && View() == Spooled([], 0, 1)
    {
      this.config := config;
      queue, bytes, nextSeq := [], 0, 1;
    }

    method Add(payload: Payload) returns (r: Result<Frame, SpoolError>)
      modifies this
      ensures (View(), r) == Push(config, old(View()), payload)
      ensures r.Err? ==> View() == old(View())
    {
      if |payload| > config.maxBytes {
        return Err(Oversize(|payload|, config.maxBytes));
      }
      if |queue| >= config.maxEntries || Saturated(bytes + |payload|, USIZE_MAX) > config.maxBytes {
        return Err(Full);
      }
      var frame := Frame(nextSeq, payload);
      nextSeq := Saturated(nextSeq + 1, U64_MAX);
      bytes := bytes + |payload|;
      queue := queue + [frame];
      return Ok(frame);
    }

    method Drain() returns (drained: seq<Frame>)
      modifies this
      ensures drained == old(queue) && View() == Spooled([], 0, old(nextSeq))
    {
      drained := [];
      while queue != []
        invariant drained + queue == old(queue) && nextSeq == old(nextSeq)
        decreases |queue|
      {
        var frame := queue[0];
        queue := queue[1..];
        drained := drained + [frame];
      }
      bytes := 0;
    }
  }

  class BusAdapter {
    const spool: OfflineSpool
    var state: Link

    constructor (config: Config)
      ensures fresh(spool) && spool.config == config && Adapter() == START
    {
      spool := new OfflineSpool(config);
      state := Offline;
    }

    /** The adapter's state, with nothing drained so far. */
    ghost function Adapter(): Adapted
      reads this, spool
    {
      Adapted(state, spool.View(), [])
    }

    method SetState(state: Link)
      modifies this
      ensures Adapter() == Step(spool.config, old(Adapter()), LinkSet(state))
    {
      this.state := state;
    }

    method Enqueue(payload: Payload) returns (r: Result<SpoolResult, SpoolError>)
      modifies spool
      ensures Adapter() == Step(spool.config, old(Adapter()), Enqueued(payload))
      ensures r == if state.Online? then Ok(Delivered)
                   else var pushed := Push(spool.config, old(spool.View()), payload).1;
                        if pushed.Ok? then Ok(Queued(pushed.value.seqNo)) else Err(pushed.error)
    {
      if state.Online? {
        return Ok(Delivered);
      }
      var frame :- spool.Add(payload);
      return Ok(Queued(frame.seqNo));
    }

    method DrainSpool() returns (drained: seq<Frame>)
      modifies spool
      ensures Adapter().(drained := drained) == Step(spool.config, old(Adapter()), Drained)
    {
      drained := spool.Drain();
    }
  }

  // ----- whole runs -----

  /** The link, the spool, and every frame drained so far. */
  datatype Adapted = Adapted(link: Link, spool: Spooled, drained: seq<Frame>)

  const START: Adapted := Adapted(Offline, Spooled([], 0, 1), [])

  datatype Event = LinkSet(link: Link) | Enqueued(payload: Payload) | Drained

  function Step(config: Config, a: Adapted, e: Event): Adapted {
    match e
    case LinkSet(link) => a.(link := link)
    case Enqueued(payload) => if a.link.Online? then a else a.(spool := Push(config, a.spool, payload).0)
    case Drained => Adapted(a.link, Spooled([], 0, a.spool.nextSeq), a.drained + a.spool.queue)
  }

  function After(config: Config, h: seq<Event>): Adapted
    decreases |h|
  {
    if h == [] then START else Step(config, After(config, h[..|h| - 1]), h[|h| - 1])
  }

  /** The link is as last set; it starts offline. */
  function LinkAfter(h: seq<Event>): Link
    decreases |h|
  {
    if h == [] then Offline else if h[|h| - 1].LinkSet? then h[|h| - 1].link else LinkAfter(h[..|h| - 1])
  }

  function Size(payloads: seq<Payload>): nat
    decreases |payloads|
  {
    if payloads == [] then 0 else Size(payloads[..|payloads| - 1]) + |payloads[|payloads| - 1]|
  }

  /**
   Whether an event after a run is an offline payload that is accepted: there is a frame free beside the payloads
   accepted since the last drain, and its bytes fit beside theirs. At the largest byte limit the sum saturates, and
   only the payload's own size counts.
   */
  predicate Accepts(config: Config, h: seq<Event>, e: Event)
    decreases |h|, 1
  {
    && e.Enqueued? && LinkAfter(h).Offline?
    && var pending := Pending(config, h);
       && |pending| < config.maxEntries
       && |e.payload| <= config.maxBytes
       && (config.maxBytes < USIZE_MAX ==> Size(pending) + |e.payload| <= config.maxBytes)
  }

  /** The payloads accepted since the last drain. */
  function Pending(config: Config, h: seq<Event>): seq<Payload>
    decreases |h|, 0
  {
    if h == [] then []
    else
      var before, e := h[..|h| - 1], h[|h| - 1];
      if e.Drained? then []
      else if Accepts(config, before, e) then Pending(config, before) + [e.payload]
      else Pending(config, before)
  }

  /** Every payload accepted while offline, in order. */
  function Accepted(config: Config, h: seq<Event>): seq<Payload>
    decreases |h|
  {
    if h == [] then []
    else
      var before, e := h[..|h| - 1], h[|h| - 1];
      if Accepts(config, before, e) then Accepted(config, before) + [e.payload] else Accepted(config, before)
  }

  /** Payloads numbered from 1, the numbers saturating. */
  function Numbered(payloads: seq<Payload>): (r: seq<Frame>)
    ensures |r| == |payloads|
  {
    seq(|payloads|, i requires 0 <= i < |payloads| => Frame(if i < U64_MAX then i + 1 else U64_MAX, payloads[i]))
  }

  function Payloads(frames: seq<Frame>): (r: seq<Payload>)
    ensures |r| == |frames|
  {
    seq(|frames|, i requires 0 <= i < |frames| => frames[i].payload)
  }

  ghost predicate Conserves(config: Config, a: Adapted, h: seq<Event>) {
    && a.link == LinkAfter(h)
    && a.drained + a.spool.queue == Numbered(Accepted(config, h))
    && Payloads(a.spool.queue) == Pending(config, h)
    && a.spool.bytes == Size(Pending(config, h))
    && a.spool.nextSeq == Saturated(|Accepted(config, h)| + 1, U64_MAX)
  }

  lemma {:induction false} NumberedPush(payloads: seq<Payload>, p: Payload)
    ensures Numbered(payloads + [p]) == Numbered(payloads) + [Frame(Saturated(|payloads| + 1, U64_MAX), p)]
  {}

  lemma {:induction false} PayloadsPush(frames: seq<Frame>, f: Frame)
    ensures Payloads(frames + [f]) == Payloads(frames) + [f.payload]
  {}

  lemma {:induction false} SizePush(payloads: seq<Payload>, p: Payload)
    ensures Size(payloads + [p]) == Size(payloads) + |p|
  {
    assert (payloads + [p])[..|payloads|] == payloads;
  }

  lemma {:induction false} HistoryStep(config: Config, before: seq<Event>, e: Event)
    ensures var h := before + [e];
            && LinkAfter(h) == (if e.LinkSet? then e.link else LinkAfter(before))
            && Pending(config, h) == (if e.Drained? then []
                                      else if Accepts(config, before, e) then Pending(config, before) + [e.payload]
                                      else Pending(config, before))
            && Accepted(config, h) == (if Accepts(config, before, e) then Accepted(config, before) + [e.payload]
                                       else Accepted(config, before))
  {
    assert (before + [e])[..|before|] == before;
  }

  lemma {:induction false} RefusalIs(config: Config, entries: nat, bytes: nat, size: nat)
    ensures Refusal(config, entries, bytes, size)
            == if size > config.maxBytes then Some(Oversize(size, config.maxBytes))
               else if entries < config.maxEntries && (config.maxBytes < USIZE_MAX ==> bytes + size <= config.maxBytes) then None
               else Some(Full)
  {}

  lemma {:induction false} AcceptStep(config: Config, a: Adapted, before: seq<Event>, e: Event)
    requires Conserves(config, a, before) && Accepts(config, before, e)
    ensures Conserves(config, Step(config, a, e), before + [e])
  {
    hide LinkAfter, Pending, Accepted, Numbered, Payloads, Size, Refusal;
    HistoryStep(config, before, e);
    RefusalIs(config, |a.spool.queue|, a.spool.bytes, |e.payload|);
    var frame := Frame(a.spool.nextSeq, e.payload);
    NumberedPush(Accepted(config, before), e.payload);
    PayloadsPush(a.spool.queue, frame);
    SizePush(Pending(config, before), e.payload);
    assert a.drained + (a.spool.queue + [frame]) == a.drained + a.spool.queue + [frame];
  }

  lemma {:induction false} ConservesStep(config: Config, a: Adapted, before: seq<Event>, e: Event)
    requires Conserves(config, a, before)
    ensures Conserves(config, Step(config, a, e), before + [e])
  {
    if Accepts(config, before, e) {
      AcceptStep(config, a, before, e);
    } else {
      HistoryStep(config, before, e);
      if e.Enqueued? {
        RefusalIs(config, |a.spool.queue|, a.spool.bytes, |e.payload|);
      }
      assert Payloads([]) == [] && Size([]) == 0;
      hide LinkAfter, Pending, Accepted, Numbered, Payloads, Size;
      assert a.drained + a.spool.queue + [] == a.drained + a.spool.queue;
    }
  }

  /**
   Nothing is lost, repeated or reordered: after any run of link changes, enqueues and drains, the frames drained
   followed by those still queued are the payloads accepted offline, in order, numbered from 1; the queued ones
   are those accepted since the last drain, and the byte count is their size.
   */
  lemma {:induction false} Conservation(config: Config, h: seq<Event>)
    ensures Conserves(config, After(config, h), h)
    decreases |h|
  {
    if h != [] {
      var before, e := h[..|h| - 1], h[|h| - 1];
      assert h == before + [e];
      Conservation(config, before);
      ConservesStep(config, After(config, before), before, e);
      hide Conserves;
    }
  }

  /**
   What an adapter answers after any run: online, delivered; offline, queued under the next number exactly when the
   payload is accepted, and otherwise refused as oversize when it alone is over the byte limit and as full in every
   other case.
   */
  lemma {:induction false} AnswerIs(config: Config, h: seq<Event>, payload: Payload)
    ensures var a := After(config, h);
            && a.link == LinkAfter(h)
            && (a.link.Offline? ==>
                  Push(config, a.spool, payload).1
                  == if Accepts(config, h, Enqueued(payload))
                     then Ok(Frame(Saturated(|Accepted(config, h)| + 1, U64_MAX), payload))
                     else Err(if |payload| > config.maxBytes then Oversize(|payload|, config.maxBytes) else Full))
  {
    hide After, LinkAfter, Pending, Accepted, Numbered, Payloads, Size;
    Conservation(config, h);
    var a := After(config, h);
    RefusalIs(config, |a.spool.queue|, a.spool.bytes, |payload|);
  }

  /** Both bounds hold at every point of every run. */
  lemma {:induction false} BoundsHold(config: Config, h: seq<Event>)
    ensures |Pending(config, h)| <= config.maxEntries
    ensures config.maxBytes < USIZE_MAX ==> Size(Pending(config, h)) <= config.maxBytes
    decreases |h|
  {
    if h != [] {
      var before, e := h[..|h| - 1], h[|h| - 1];
      assert h == before + [e];
      BoundsHold(config, before);
      HistoryStep(config, before, e);
      if Accepts(config, before, e) {
        SizePush(Pending(config, before), e.payload);
      }
      hide Pending;
    }
  }
}
