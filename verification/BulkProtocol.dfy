/**
 Sender and receiver of a bulk transfer, composed over a data channel and a credit channel, with a status
 barrier that empties both.
 */
module BulkProtocol {
  import opened Common
  import opened BulkState

  /** `window` is the number of credits the sender last started with. `unsaved` holds chunks not yet stored. */
  datatype System = System(
    source: Bytes, sender: Sender, receiver: Receiver,
    wire: seq<Frame>, unsaved: seq<Frame>, credits: seq<Credit>, output: Bytes, window: nat)

  datatype Event = Send | Deliver | Save | Acknowledge | Barrier

  /** `Rejected`: one end refuses what the other end offers. */
  datatype Outcome = Disabled | Rejected(error: Error) | Next(system: System)

  function Step(s: System, e: Event): Outcome
    requires s.sender.chunkSize > 0 && s.sender.sentOffset <= |s.source| == s.sender.totalSize
  {
    match e
    case Send =>
      if s.sender.availableCredits == 0 || s.sender.sentOffset >= s.sender.totalSize then Disabled
      else
        var len := Min(s.sender.totalSize - s.sender.sentOffset, s.sender.chunkSize);
        (match Granted(s.sender, len)
         case Err(error) => Rejected(error)
         case Ok((sender, grant)) =>
           var data := s.source[s.sender.sentOffset..s.sender.sentOffset + len];
           Next(s.(sender := sender,
                   wire := s.wire + [Frame(s.sender.streamId, grant.offset, grant.endOfData, data)])))
    case Deliver =>
      if s.wire == [] then Disabled
      else
        (match Accepted(s.receiver, s.wire[0])
         case Err(error) => Rejected(error)
         case Ok(receiver) =>
           Next(s.(receiver := receiver, wire := s.wire[1..], unsaved := s.unsaved + [s.wire[0]])))
    case Save =>
      if s.unsaved == [] then Disabled
      else
        var frame := s.unsaved[0];
        (match MadeDurable(s.receiver, frame.offset, |frame.data|)
         case Err(error) => Rejected(error)
         case Ok((receiver, credit)) =>
           Next(s.(receiver := receiver, unsaved := s.unsaved[1..], output := s.output + frame.data,
                   credits := s.credits + (if credit.Some? then [credit.value] else []))))
    case Acknowledge =>
      if s.credits == [] then Disabled
      else
        (match Credited(s.sender, s.credits[0])
         case Err(error) => Rejected(error)
         case Ok(sender) => Next(s.(sender := sender, credits := s.credits[1..])))
    case Barrier =>
      var status := Status(s.sender.streamId, Upload, s.sender.totalSize, s.receiver.durableOffset,
                           s.sender.maximumCredits, 0);
      var answer := status.(direction := Readback);
      (match (Rewound(s.sender, status), Resynchronised(s.receiver, answer))
       case (Ok(sender), Ok(receiver)) =>
         Next(s.(sender := sender, receiver := receiver, wire := [], unsaved := [], credits := [],
                 window := s.sender.maximumCredits))
       case (Err(error), _) => Rejected(error)
       case (_, Err(error)) => Rejected(error))
  }

  // ---- Invariant ----

  /** The frame an honest sender cuts at `from`. */
  function FrameAt(source: Bytes, streamId: nat, chunk: nat, from: nat): Frame
    requires from <= |source|
  {
    var end := Min(from + chunk, |source|);
    Frame(streamId, from, end == |source|, source[from..end])
  }

  /** `frames` are the honest frames from `from` to `to`, without gap. */
  ghost predicate Chain(source: Bytes, streamId: nat, chunk: nat, frames: seq<Frame>, from: nat, to: nat)
    decreases |frames|
  {
    && from <= to <= |source|
    && if frames == [] then from == to
       else
         && from < |source|
         && frames[0] == FrameAt(source, streamId, chunk, from)
         && Chain(source, streamId, chunk, frames[1..], from + |frames[0].data|, to)
  }

  predicate Boundary(total: nat, chunk: nat, offset: nat)
    requires chunk > 0
  {
    offset == total || offset % chunk == 0
  }

  function Total(credits: seq<Credit>): nat {
    if credits == [] then 0 else credits[0].credits + Total(credits[1..])
  }

  /** Credits on their way acknowledge ever later boundaries, the last of them `to`. */
  ghost predicate Acknowledging(p: Sender, credits: seq<Credit>, from: nat, to: nat)
    requires p.chunkSize > 0
    decreases |credits|
  {
    && from <= to
    && if credits == [] then from == to
       else
         && credits[0].streamId == p.streamId && credits[0].code == 0
         && from <= credits[0].durableOffset
         && Boundary(p.totalSize, p.chunkSize, credits[0].durableOffset)
         && Acknowledging(p, credits[1..], credits[0].durableOffset, to)
  }

  ghost predicate SameParameters(s: System) {
    && s.sender.streamId == s.receiver.streamId > 0
    && s.sender.totalSize == s.receiver.totalSize == |s.source|
    && 0 < |s.source| < U32_LIMIT
    && s.sender.chunkSize == s.receiver.chunkSize > 0
    && s.sender.maximumCredits == s.receiver.maximumCredits
    && 0 < s.window <= s.sender.maximumCredits < U8_LIMIT
    && s.receiver.creditBatch == CreditBatch(s.receiver.maximumCredits)
  }

  /** Every credit is somewhere: at the sender, on a chunk, pending, or on its way back. */
  ghost predicate CreditsConserved(s: System) {
    s.sender.availableCredits + |s.wire| + |s.unsaved| + s.receiver.pendingCredits + Total(s.credits) == s.window
  }

  /** The last boundary acknowledged, once every credit on its way has arrived. */
  function Acked(s: System): nat {
    if s.credits == [] then s.sender.durableOffset else s.credits[|s.credits| - 1].durableOffset
  }

  /** What is stored, received and sent are prefixes of the source, with honest frames in between. */
  ghost predicate DataInv(s: System) {
    && SameParameters(s)
    && Boundary(|s.source|, s.sender.chunkSize, s.sender.sentOffset)
    && Boundary(|s.source|, s.sender.chunkSize, s.receiver.durableOffset)
    && s.receiver.durableOffset <= s.receiver.receivedOffset <= s.sender.sentOffset <= |s.source|
    && s.output == s.source[..s.receiver.durableOffset]
    && Chain(s.source, s.sender.streamId, s.sender.chunkSize, s.unsaved, s.receiver.durableOffset,
        s.receiver.receivedOffset)
    && Chain(s.source, s.sender.streamId, s.sender.chunkSize, s.wire, s.receiver.receivedOffset, s.sender.sentOffset)
  }

  /** No credit is lost, and once all have arrived they acknowledge what is stored. */
  ghost predicate CreditInv(s: System) {
    && SameParameters(s)
    && CreditsConserved(s)
    && Acked(s) <= s.receiver.durableOffset
    && Acknowledging(s.sender, s.credits, s.sender.durableOffset, Acked(s))
    && (s.receiver.pendingCredits == 0 ==> Acked(s) == s.receiver.durableOffset)
    && s.receiver.pendingCredits < s.receiver.creditBatch
    && (s.receiver.durableOffset == |s.source| ==> s.receiver.pendingCredits == 0)
  }

  ghost predicate Inv(s: System) {
    DataInv(s) && CreditInv(s)
  }

  /** Both ends freshly made for the same transfer, the sender holding `initialCredits` of the maximum. */
  ghost predicate Initial(s: System) {
    && s.source != [] && |s.source| < U32_LIMIT && s.sender.maximumCredits < U8_LIMIT
    && NewSender(s.sender.streamId, |s.source|, s.sender.chunkSize, s.sender.maximumCredits, s.window) == Ok(s.sender)
    && NewReceiver(s.sender.streamId, |s.source|, s.sender.chunkSize, s.sender.maximumCredits) == Ok(s.receiver)
    && s.wire == [] && s.unsaved == [] && s.credits == [] && s.output == []
  }

  lemma InitialInv(s: System)
    requires Initial(s)
    ensures Inv(s)
  {
  }

  // ---- Arithmetic of boundaries, chains and credits ----

  lemma NextBoundary(total: nat, chunk: nat, offset: nat)
    requires chunk > 0 && Boundary(total, chunk, offset) && offset < total
    ensures Boundary(total, chunk, Min(offset + chunk, total))
  {
    var q := offset / chunk;
    assert offset + chunk == chunk * (q + 1);
    MultipleOf(chunk, q + 1);
  }

  lemma MultipleOf(chunk: nat, q: nat)
    requires chunk > 0
    ensures (chunk * q) % chunk == 0
  {
    var d: int, r: int := (chunk * q) / chunk, (chunk * q) % chunk;
    assert chunk * (q - d) == r;
    ProductAway(chunk, q - d);
  }

  lemma ProductAway(chunk: int, k: int)
    requires chunk >= 0
    ensures k >= 1 ==> chunk * k >= chunk
    ensures k <= -1 ==> chunk * k <= -chunk
  {
    if k >= 1 {
      assert chunk * k == chunk + chunk * (k - 1);
    } else if k <= -1 {
      assert chunk * k == -chunk + chunk * (k + 1);
    }
  }

  lemma {:induction false} ChainAppend(source: Bytes, streamId: nat, chunk: nat, frames: seq<Frame>, from: nat, to: nat)
    requires Chain(source, streamId, chunk, frames, from, to) && to < |source|
    ensures var last := FrameAt(source, streamId, chunk, to);
            Chain(source, streamId, chunk, frames + [last], from, to + |last.data|)
    decreases |frames|
  {
    var last := FrameAt(source, streamId, chunk, to);
    var longer := frames + [last];
    if frames == [] {
      assert longer[1..] == [];
    } else {
      ChainAppend(source, streamId, chunk, frames[1..], from + |frames[0].data|, to);
      assert longer[1..] == frames[1..] + [last];
    }
  }

  lemma {:induction false} TotalAppend(credits: seq<Credit>, last: Credit)
    ensures Total(credits + [last]) == Total(credits) + last.credits
    decreases |credits|
  {
    var longer := credits + [last];
    if credits == [] {
      assert longer[1..] == [];
    } else {
      TotalAppend(credits[1..], last);
      assert longer[1..] == credits[1..] + [last];
    }
  }

  lemma {:induction false} AcknowledgingAppend(p: Sender, credits: seq<Credit>, from: nat, to: nat, last: Credit)
    requires p.chunkSize > 0 && Acknowledging(p, credits, from, to)
    requires last.streamId == p.streamId && last.code == 0 && to <= last.durableOffset
    requires Boundary(p.totalSize, p.chunkSize, last.durableOffset)
    ensures Acknowledging(p, credits + [last], from, last.durableOffset)
    decreases |credits|
  {
    var longer := credits + [last];
    if credits == [] {
      assert longer[1..] == [];
    } else {
      AcknowledgingAppend(p, credits[1..], credits[0].durableOffset, to, last);
      assert longer[1..] == credits[1..] + [last];
    }
  }

  /** Which boundaries count depends only on the sender's fixed parameters. */
  lemma {:induction false} AcknowledgingFrame(p: Sender, q: Sender, credits: seq<Credit>, from: nat, to: nat)
    requires p.chunkSize > 0 && Acknowledging(p, credits, from, to)
    requires q.streamId == p.streamId && q.totalSize == p.totalSize && q.chunkSize == p.chunkSize
    ensures Acknowledging(q, credits, from, to)
    decreases |credits|
  {
    if credits != [] { AcknowledgingFrame(p, q, credits[1..], credits[0].durableOffset, to); }
  }

  // ---- Every step ----

  lemma HonestSendIsGranted(s: System)
    requires SameParameters(s) && s.sender.availableCredits > 0 && s.sender.sentOffset < |s.source|
    ensures var frame := FrameAt(s.source, s.sender.streamId, s.sender.chunkSize, s.sender.sentOffset);
            Step(s, Send) ==
            Next(s.(sender := s.sender.(sentOffset := s.sender.sentOffset + |frame.data|,
                                        availableCredits := s.sender.availableCredits - 1),
                    wire := s.wire + [frame]))
  {
  }

  lemma SendKeepsInv(s: System)
    requires Inv(s) && s.sender.availableCredits > 0 && s.sender.sentOffset < |s.source|
    ensures Step(s, Send).Next? && Inv(Step(s, Send).system)
  {
    HonestSendIsGranted(s);
    var t := Step(s, Send).system;
    assert DataInv(t) by {
      NextBoundary(|s.source|, s.sender.chunkSize, s.sender.sentOffset);
      ChainAppend(s.source, s.sender.streamId, s.sender.chunkSize, s.wire, s.receiver.receivedOffset,
          s.sender.sentOffset);
    }
    assert CreditInv(t) by {
      AcknowledgingFrame(s.sender, t.sender, s.credits, s.sender.durableOffset, Acked(s));
    }
  }

  lemma HonestFrameIsAccepted(s: System)
    requires DataInv(s) && s.wire != []
    ensures var frame := s.wire[0];
            Step(s, Deliver) ==
            Next(s.(receiver := s.receiver.(receivedOffset := s.receiver.receivedOffset + |frame.data|),
                    wire := s.wire[1..], unsaved := s.unsaved + [frame]))
  {
    var frame := s.wire[0];
    assert frame == FrameAt(s.source, s.sender.streamId, s.sender.chunkSize, s.receiver.receivedOffset);
    assert Accepted(s.receiver, frame).Ok?;
  }

  lemma DeliverKeepsInv(s: System)
    requires Inv(s) && s.wire != []
    ensures Step(s, Deliver).Next? && Inv(Step(s, Deliver).system)
  {
    HonestFrameIsAccepted(s);
    var t := Step(s, Deliver).system;
    assert DataInv(t) by {
      ChainReaches(s.source, s.sender.streamId, s.sender.chunkSize, s.wire, s.receiver.receivedOffset,
          s.sender.sentOffset);
      ChainAppend(s.source, s.sender.streamId, s.sender.chunkSize, s.unsaved, s.receiver.durableOffset,
          s.receiver.receivedOffset);
    }
    assert CreditInv(t);
  }

  /** An honest chunk that has been received is stored; its credit is sent when the batch is full or at the end. */
  lemma HonestChunkIsSaved(s: System)
    requires DataInv(s) && s.unsaved != [] && s.receiver.pendingCredits < s.receiver.creditBatch
    ensures var frame := s.unsaved[0];
            var end, pending := s.receiver.durableOffset + |frame.data|, s.receiver.pendingCredits + 1;
            var full := pending >= s.receiver.creditBatch || end == |s.source|;
            Step(s, Save) ==
            Next(s.(receiver := s.receiver.(durableOffset := end, pendingCredits := if full then 0 else pending),
                    unsaved := s.unsaved[1..], output := s.output + frame.data,
                    credits := s.credits + (if full then [Credit(s.receiver.streamId, end, pending, 0)] else [])))
  {
    var frame := s.unsaved[0];
    assert frame == FrameAt(s.source, s.sender.streamId, s.sender.chunkSize, s.receiver.durableOffset);
    ChainReaches(s.source, s.sender.streamId, s.sender.chunkSize, s.unsaved, s.receiver.durableOffset,
        s.receiver.receivedOffset);
    assert MadeDurable(s.receiver, frame.offset, |frame.data|).Ok?;
  }

  lemma ChainReaches(source: Bytes, streamId: nat, chunk: nat, frames: seq<Frame>, from: nat, to: nat)
    requires Chain(source, streamId, chunk, frames, from, to) && frames != []
    ensures frames[0] == FrameAt(source, streamId, chunk, from) && from < from + |frames[0].data| <= to
    ensures Chain(source, streamId, chunk, frames[1..], from + |frames[0].data|, to)
    requires chunk > 0
  {
  }

  lemma SaveKeepsInv(s: System)
    requires Inv(s) && s.unsaved != []
    ensures Step(s, Save).Next? && Inv(Step(s, Save).system)
  {
    var frame := s.unsaved[0];
    HonestChunkIsSaved(s);
    ChainReaches(s.source, s.sender.streamId, s.sender.chunkSize, s.unsaved, s.receiver.durableOffset,
        s.receiver.receivedOffset);
    NextBoundary(|s.source|, s.sender.chunkSize, s.receiver.durableOffset);
    var t := Step(s, Save).system;
    assert DataInv(t) by {
      assert t.output == t.source[..t.receiver.durableOffset];
    }
    assert CreditInv(t) by {
      SavedCreditInv(s);
    }
  }

  lemma SavedCreditInv(s: System)
    requires Inv(s) && s.unsaved != []
    ensures Step(s, Save).Next? && CreditInv(Step(s, Save).system)
  {
    var frame := s.unsaved[0];
    HonestChunkIsSaved(s);
    ChainReaches(s.source, s.sender.streamId, s.sender.chunkSize, s.unsaved, s.receiver.durableOffset,
        s.receiver.receivedOffset);
    NextBoundary(|s.source|, s.sender.chunkSize, s.receiver.durableOffset);
    var t := Step(s, Save).system;
    var end, pending := s.receiver.durableOffset + |frame.data|, s.receiver.pendingCredits + 1;
    if pending >= s.receiver.creditBatch || end == |s.source| {
      var last := Credit(s.receiver.streamId, end, pending, 0);
      assert t.credits == s.credits + [last];
      TotalAppend(s.credits, last);
      AcknowledgingAppend(s.sender, s.credits, s.sender.durableOffset, Acked(s), last);
    } else {
      assert t.credits == s.credits;
    }
  }

  lemma AcknowledgingBelow(p: Sender, credits: seq<Credit>, from: nat, to: nat)
    requires p.chunkSize > 0 && Acknowledging(p, credits, from, to)
    ensures from <= to
    ensures credits != [] ==> credits[0].durableOffset <= to
  {
  }

  lemma AcknowledgeKeepsInv(s: System)
    requires Inv(s) && s.credits != []
    ensures Step(s, Acknowledge).Next? && Inv(Step(s, Acknowledge).system)
  {
    AcknowledgingBelow(s.sender, s.credits, s.sender.durableOffset, Acked(s));
    var t := Step(s, Acknowledge).system;
    assert DataInv(t);
    assert CreditInv(t) by {
      AcknowledgingFrame(s.sender, t.sender, t.credits, t.sender.durableOffset, Acked(s));
    }
  }

  lemma BarrierKeepsInv(s: System)
    requires Inv(s)
    ensures Step(s, Barrier).Next? && Inv(Step(s, Barrier).system)
  {
    AcknowledgingBelow(s.sender, s.credits, s.sender.durableOffset, Acked(s));
  }

  /** Whatever happens next, neither end rejects the other, and the invariant is kept. */
  lemma StepKeepsInv(s: System, e: Event)
    requires Inv(s)
    ensures !Step(s, e).Rejected?
    ensures Step(s, e).Next? ==> Inv(Step(s, e).system)
  {
    match e {
      case Send => if s.sender.availableCredits > 0 && s.sender.sentOffset < |s.source| { SendKeepsInv(s); }
      case Deliver => if s.wire != [] { DeliverKeepsInv(s); }
      case Save => if s.unsaved != [] { SaveKeepsInv(s); }
      case Acknowledge => if s.credits != [] { AcknowledgeKeepsInv(s); }
      case Barrier => BarrierKeepsInv(s);
    }
  }

  // ---- Runs ----

  /** A run: each event takes its state to the next one. */
  ghost predicate Trace(states: seq<System>, events: seq<Event>) {
    && |states| == |events| + 1
    && forall i :: 0 <= i < |events| ==> Takes(states[i], events[i], states[i + 1])
  }

  ghost predicate Takes(s: System, e: Event, t: System) {
    && s.sender.chunkSize > 0 && s.sender.sentOffset <= |s.source| == s.sender.totalSize
    && Step(s, e) == Next(t)
  }

  lemma {:induction false} TraceInv(states: seq<System>, events: seq<Event>, i: nat)
    requires Trace(states, events) && Inv(states[0]) && i < |states|
    ensures Inv(states[i]) && states[i].source == states[0].source
  {
    if i > 0 {
      TraceInv(states, events, i - 1);
      assert Takes(states[i - 1], events[i - 1], states[i]);
      StepKeepsInv(states[i - 1], events[i - 1]);
    }
  }

  /**
   Safety over every run, barriers included: credits are conserved, no end can reject the other in any
   reachable state, and what is stored is the matching prefix of the source.
   */
  lemma RunsAreSafe(states: seq<System>, events: seq<Event>, i: nat, e: Event)
    requires Trace(states, events) && Initial(states[0]) && i < |states|
    ensures Inv(states[i]) && CreditsConserved(states[i])
    ensures !Step(states[i], e).Rejected?
    ensures states[i].receiver.durableOffset <= |states[0].source|
    ensures states[i].output == states[0].source[..states[i].receiver.durableOffset]
    ensures states[i].sender.durableOffset <= states[i].receiver.durableOffset
  {
    InitialInv(states[0]);
    TraceInv(states, events, i);
    StepKeepsInv(states[i], e);
  }

  /** Work left: every event but a barrier uses some of it up. */
  function Work(s: System): nat
    requires s.sender.sentOffset <= |s.source|
  {
    4 * (|s.source| - s.sender.sentOffset) + 3 * |s.wire| + 2 * |s.unsaved| + |s.credits|
  }

  lemma StepUsesWork(s: System, e: Event)
    requires Inv(s) && e != Barrier && Step(s, e).Next?
    ensures Inv(Step(s, e).system) && Work(Step(s, e).system) < Work(s)
  {
    StepKeepsInv(s, e);
  }

  /** A run without barriers is no longer than the work it starts with. */
  lemma {:induction false} BarrierFreeRunsAreFinite(states: seq<System>, events: seq<Event>, n: nat)
    requires Trace(states, events) && Inv(states[0]) && Barrier !in events && n <= |events|
    ensures Inv(states[n]) && n + Work(states[n]) <= Work(states[0])
  {
    if n > 0 {
      BarrierFreeRunsAreFinite(states, events, n - 1);
      assert Takes(states[n - 1], events[n - 1], states[n]);
      StepUsesWork(states[n - 1], events[n - 1]);
    }
  }

  // ---- Progress ----

  ghost predicate Stuck(s: System)
    requires s.sender.chunkSize > 0 && s.sender.sentOffset <= |s.source| == s.sender.totalSize
  {
    Step(s, Send).Disabled? && Step(s, Deliver).Disabled? && Step(s, Save).Disabled? && Step(s, Acknowledge).Disabled?
  }

  predicate Finished(s: System) {
    s.sender.durableOffset == s.receiver.durableOffset == |s.source|
  }

  /** The window fills a batch of credits, or the whole transfer fits in the window. */
  predicate WindowSuffices(window: nat, maximumCredits: nat, chunk: nat, total: nat) {
    CreditBatch(maximumCredits) <= window || total <= window * chunk
  }

  /**
   Before the first batch of credits is full, the sender has sent as many whole chunks as it has spent
   credits. With a window below the batch this lasts until the end of the transfer.
   */
  ghost predicate SmallWindow(s: System) {
    s.window < s.receiver.creditBatch ==>
      || s.receiver.durableOffset == |s.source|
      || (s.credits == []
          && s.sender.availableCredits <= s.window
          && s.sender.sentOffset == Min((s.window - s.sender.availableCredits) * s.sender.chunkSize, |s.source|))
  }

  lemma StepKeepsSmallWindow(s: System, e: Event)
    requires Inv(s) && SmallWindow(s) && Step(s, e).Next?
    ensures SmallWindow(Step(s, e).system)
  {
    StepKeepsInv(s, e);
    var t := Step(s, e).system;
    match e {
      case Send =>
        var spent := s.window - s.sender.availableCredits;
        assert (spent + 1) * s.sender.chunkSize == spent * s.sender.chunkSize + s.sender.chunkSize;
      case Save =>
        HonestChunkIsSaved(s);
      case _ =>
    }
  }

  /** Where nothing but a barrier can happen, the transfer is finished, or a batch can never be filled. */
  lemma StuckStates(s: System)
    requires Inv(s) && Stuck(s)
    ensures Finished(s) || (s.window == s.receiver.pendingCredits < s.receiver.creditBatch
                            && s.sender.availableCredits == 0
                            && s.sender.sentOffset < |s.source|)
  {
  }

  /** With too small a window the end of the source is never sent. */
  ghost predicate FallsShort(s: System) {
    WindowSuffices(s.window, s.sender.maximumCredits, s.sender.chunkSize, |s.source|) ||
        s.sender.sentOffset < |s.source|
  }

  lemma StepFallsShort(s: System, e: Event)
    requires Inv(s) && SmallWindow(s) && FallsShort(s) && e != Barrier && Step(s, e).Next?
    ensures FallsShort(Step(s, e).system)
  {
    if e == Send && !WindowSuffices(s.window, s.sender.maximumCredits, s.sender.chunkSize, |s.source|) {
      var spent := s.window - s.sender.availableCredits;
      assert (spent + 1) * s.sender.chunkSize == spent * s.sender.chunkSize + s.sender.chunkSize;
      MoreChunks(spent + 1, s.window, s.sender.chunkSize);
    }
  }

  lemma MoreChunks(few: nat, many: nat, chunk: nat)
    requires few <= many
    ensures few * chunk <= many * chunk
  {
  }

  ghost predicate BarrierFree(first: System, s: System) {
    && Inv(s) && SmallWindow(s) && FallsShort(s)
    && s.source == first.source && s.window == first.window
    && s.sender.maximumCredits == first.sender.maximumCredits && s.sender.chunkSize == first.sender.chunkSize
  }

  lemma StepKeepsBarrierFree(first: System, s: System, e: Event)
    requires BarrierFree(first, s) && e != Barrier && Step(s, e).Next?
    ensures BarrierFree(first, Step(s, e).system)
  {
    StepKeepsInv(s, e);
    StepKeepsSmallWindow(s, e);
    StepFallsShort(s, e);
  }

  lemma {:induction false} BarrierFreeInvariants(states: seq<System>, events: seq<Event>, i: nat)
    requires Trace(states, events) && Initial(states[0]) && Barrier !in events && i < |states|
    ensures BarrierFree(states[0], states[i])
  {
    if i == 0 {
      InitialInv(states[0]);
    } else {
      BarrierFreeInvariants(states, events, i - 1);
      assert Takes(states[i - 1], events[i - 1], states[i]);
      StepKeepsBarrierFree(states[0], states[i - 1], events[i - 1]);
    }
  }

  /**
   A barrier-free run that can go no further has carried the whole source to the receiver and back to the
   sender's books, exactly when the window fills a batch of credits or holds the whole transfer.
   */
  lemma BarrierFreeRunsFinish(states: seq<System>, events: seq<Event>)
    requires Trace(states, events) && Initial(states[0]) && Barrier !in events
    requires var last := states[|events|];
             last.sender.chunkSize > 0 && last.sender.sentOffset <= |last.source| == last.sender.totalSize &&
                 Stuck(last)
    ensures var first, last := states[0], states[|events|];
            var suffices := WindowSuffices(first.window, first.sender.maximumCredits, first.sender.chunkSize,
                |first.source|);
            && (Finished(last) <==> suffices)
            && (suffices ==> last.output == first.source)
  {
    BarrierFreeInvariants(states, events, |events|);
    var last := states[|events|];
    StuckStates(last);
    if !Finished(last) {
      assert (last.window - last.sender.availableCredits) * last.sender.chunkSize ==
          last.window * last.sender.chunkSize;
    }
  }

  /** Four credits at most but one to start with: after one chunk of two, nothing can move any more. */
  lemma SmallWindowDeadlock(source: Bytes)
    requires |source| == 2
    ensures exists states: seq<System>, events: seq<Event> ::
              && Trace(states, events) && Initial(states[0]) && Barrier !in events
              && |states[|events|].source| == 2 && states[|events|].sender.chunkSize == 1
              && states[|events|].sender.sentOffset <= 2 == states[|events|].sender.totalSize
              && Stuck(states[|events|]) && !Finished(states[|events|])
  {
    var s0 := System(source, Sender(1, 2, 1, 4, 1, 0, 0), Receiver(1, 2, 1, 4, 2, 0, 0, 0), [], [], [], [], 1);
    var frame := FrameAt(source, 1, 1, 0);
    var s1 := s0.(sender := Sender(1, 2, 1, 4, 0, 1, 0), wire := [frame]);
    var s2 := s1.(receiver := Receiver(1, 2, 1, 4, 2, 0, 1, 0), wire := [], unsaved := [frame]);
    var s3 := s2.(receiver := Receiver(1, 2, 1, 4, 2, 1, 1, 1), unsaved := [], output := frame.data);
    var states, events := [s0, s1, s2, s3], [Send, Deliver, Save];
    assert Takes(s0, Send, s1);
    assert s1.wire[1..] == [];
    assert Takes(s1, Deliver, s2);
    assert s2.unsaved[1..] == [];
    assert Takes(s2, Save, s3);
    assert Trace(states, events) && Initial(states[0]);
    assert Stuck(states[|events|]) && !Finished(states[|events|]);
  }
}
