/** The readback driver: it receives a file over an arbitrary transport and stores it durably. */
module BulkReadbackStream {
  import opened Common
  import opened BulkState
  import Crc32

  datatype PollAnswer = Data(frame: Frame) | Timeout | Lost

  datatype Error = OutputFailed | Protocol | TransportFailed

  datatype Summary = Summary(bytes: nat, crc: bv32)

  /** What the peer lets the driver know while data flows. */
  datatype Heard = Delivered(frame: Frame) | Reported(status: Status)

  /**
   A transport that may answer anything, and keeps a record of its answers. It reports the loss of the line after
   finitely many polls.
   */
  class Transport {
    var patience: nat
    ghost var reply: Option<OpenResponse>
    ghost var heard: seq<Heard>
    ghost var credited: seq<Credit>
    ghost var finished: Option<FinishResponse>
    ghost var failed: bool

    ghost predicate Unused()
      reads this
    {
      reply.None? && heard == [] && credited == [] && finished.None? && !failed
    }

    constructor (patience: nat)
      ensures Unused()
    {
      this.patience := patience;
      reply, heard, credited, finished, failed := None, [], [], None, false;
    }

    /** The size of the file is a 32-bit field of the reply. */
    method Open() returns (r: Option<OpenResponse>)
      modifies this`reply, this`failed
      ensures reply == r && failed == (old(failed) || r.None?)
      ensures r.Some? ==> r.value.totalSize < U32_LIMIT
    {
      r := *;
      if r.Some? && r.value.totalSize >= U32_LIMIT { r := None; }
      reply, failed := r, failed || r.None?;
    }

    method PollData() returns (answer: PollAnswer)
      modifies this`patience, this`heard, this`failed
      ensures patience <= old(patience)
      ensures !answer.Lost? ==> patience < old(patience)
      ensures heard == if answer.Data? then old(heard) + [Delivered(answer.frame)] else old(heard)
      ensures failed == (old(failed) || answer.Lost?)
    {
      answer := *;
      if patience == 0 { answer := Lost; }
      if !answer.Lost? { patience := patience - 1; }
      if answer.Data? { heard := heard + [Delivered(answer.frame)]; }
      failed := failed || answer.Lost?;
    }

    method SendCredit(credit: Credit) returns (ok: bool)
      modifies this`credited, this`failed
      ensures credited == old(credited) + [credit] && failed == (old(failed) || !ok)
    {
      ok := *;
      credited, failed := credited + [credit], failed || !ok;
    }

    method QueryStatus(streamId: nat) returns (r: Option<Status>)
      modifies this`heard, this`failed
      ensures heard == if r.Some? then old(heard) + [Reported(r.value)] else old(heard)
      ensures failed == (old(failed) || r.None?)
    {
      r := *;
      if r.Some? { heard := heard + [Reported(r.value)]; }
      failed := failed || r.None?;
    }

    method Finish(streamId: nat) returns (r: Option<FinishResponse>)
      modifies this`finished, this`failed
      ensures finished == r && failed == (old(failed) || r.None?)
    {
      r := *;
      finished, failed := r, failed || r.None?;
    }

    method Abort(streamId: nat) returns (confirmed: bool) {
      confirmed := *;
    }
  }

  /**
   The output file. Any operation may fail; a failed write may leave part of its data. It keeps a record of
   failures: of any operation, of the last write, and of the last rollback.
   */
  class Output {
    var content: Bytes
    var position: nat
    ghost var failed: bool
    ghost var writeFailed: bool
    ghost var rollbackFailed: bool

    ghost predicate Unused()
      reads this
    {
      content == [] && position == 0 && !failed && !writeFailed && !rollbackFailed
    }

    constructor ()
      ensures Unused()
    {
      content, position := [], 0;
      failed, writeFailed, rollbackFailed := false, false, false;
    }

    method WriteAll(data: Bytes) returns (ok: bool)
      requires position == |content|
      modifies this`content, this`position, this`failed, this`writeFailed
      ensures position == |content| && old(content) <= content
      ensures ok ==> content == old(content) + data
      ensures failed == (old(failed) || !ok) && writeFailed == !ok
    {
      ok := *;
      var written :| 0 <= written <= |data|;
      if ok { written := |data|; }
      content, position := content + data[..written], position + written;
      failed, writeFailed := failed || !ok, !ok;
    }

    method Flush() returns (ok: bool)
      modifies this`failed
      ensures failed == (old(failed) || !ok)
    {
      ok := *;
      failed := failed || !ok;
    }

    method Truncate(len: nat) returns (ok: bool)
      requires len <= |content|
      modifies this`content, this`failed
      ensures content == if ok then old(content)[..len] else old(content)
      ensures failed == (old(failed) || !ok)
    {
      ok := *;
      if ok { content := content[..len]; }
      failed := failed || !ok;
    }

    method SeekTo(offset: nat) returns (ok: bool)
      modifies this`position, this`failed
      ensures ok ==> position == offset
      ensures failed == (old(failed) || !ok)
    {
      ok := *;
      if ok { position := offset; }
      failed := failed || !ok;
    }

    /** Takes the output back to its first `offset` bytes. */
    method Rollback(offset: nat) returns (ok: bool)
      requires offset <= |content|
      modifies this`content, this`position, this`failed, this`rollbackFailed
      ensures ok ==> content == old(content)[..offset] && position == offset
      ensures failed == (old(failed) || !ok) && rollbackFailed == !ok
    {
      rollbackFailed := true;
      ok := Flush();
      if !ok { return; }
      ok := Truncate(offset);
      if !ok { return; }
      ok := SeekTo(offset);
      rollbackFailed := !ok;
    }
  }

  function Joined(frames: seq<Frame>): Bytes {
    if frames == [] then [] else Joined(frames[..|frames| - 1]) + frames[|frames| - 1].data
  }

  /** Each frame begins where the ones before it end. */
  ghost predicate GapFree(frames: seq<Frame>) {
    forall i :: 0 <= i < |frames| ==> frames[i].offset == |Joined(frames[..i])|
  }

  lemma JoinedSnoc(frames: seq<Frame>, last: Frame)
    ensures Joined(frames + [last]) == Joined(frames) + last.data
    ensures GapFree(frames) && last.offset == |Joined(frames)| ==> GapFree(frames + [last])
  {
    var longer := frames + [last];
    assert longer[..|frames|] == frames;
    if GapFree(frames) && last.offset == |Joined(frames)| {
      forall i | 0 <= i < |longer|
        ensures longer[i].offset == |Joined(longer[..i])|
      {
        assert longer[..i] == if i < |frames| then frames[..i] else frames;
      }
    }
  }

  /** What the status query reports as the checksum of an empty prefix is zero. */
  function FinalizedCrc(offset: nat, crc: bv32): bv32 {
    if offset == 0 then 0 else Crc32.Finished(crc)
  }

  /** The receiver at the head of the loop: everything received is stored, and the checksum is that of the output. */
  ghost predicate Settled(state: Receiver, content: Bytes, crc: bv32, stored: seq<Frame>) {
    && state.receivedOffset == state.durableOffset == |content|
    && content == Joined(stored) && GapFree(stored)
    && crc == Crc32.Update(Crc32.START, content)
    && state.pendingCredits < state.creditBatch == CreditBatch(state.maximumCredits)
    && state.chunkSize > 0 && state.totalSize < U32_LIMIT && state.maximumCredits < U8_LIMIT
  }

  /** A frame that is accepted is always stored: the durable mark cannot be refused. */
  lemma AcceptedFrameIsStored(state: Receiver, content: Bytes, crc: bv32, stored: seq<Frame>, frame: Frame)
    requires Settled(state, content, crc, stored) && Accepted(state, frame).Ok?
    ensures var accepted := Accepted(state, frame).value;
            && accepted.durableOffset == state.durableOffset
            && MadeDurable(accepted, frame.offset, |frame.data|).Ok?
            && MadeDurable(accepted, frame.offset, |frame.data|).value.0.durableOffset <= state.totalSize
            && Settled(MadeDurable(accepted, frame.offset, |frame.data|).value.0, content + frame.data,
                       Crc32.Update(crc, frame.data), stored + [frame])
  {
    JoinedSnoc(stored, frame);
    Crc32.UpdateAppend(Crc32.START, content, frame.data);
  }

  // ---- What the record of the line says ----

  /** The receiver, the frames it has stored and the credits it owes, in order. */
  datatype Kept = Kept(state: Receiver, stored: seq<Frame>, credits: seq<Credit>)

  /** `None` where the receiver has to refuse what it hears. */
  function HeededOne(k: Kept, h: Heard): Option<Kept> {
    match h
    case Delivered(frame) =>
      (match Accepted(k.state, frame)
       case Err(_) => None
       case Ok(accepted) =>
         match MadeDurable(accepted, frame.offset, |frame.data|)
         case Err(_) => None
         case Ok((state, credit)) =>
           Some(Kept(state, k.stored + [frame], k.credits + if credit.Some? then [credit.value] else [])))
    case Reported(status) =>
      if status.runningCrc != FinalizedCrc(k.state.durableOffset, Crc32.Update(Crc32.START, Joined(k.stored))) then None
      else
        match Resynchronised(k.state, status)
        case Err(_) => None
        case Ok(state) => Some(k.(state := state))
  }

  function Heeded(start: Receiver, heard: seq<Heard>): Option<Kept> {
    if heard == [] then Some(Kept(start, [], []))
    else
      match Heeded(start, heard[..|heard| - 1])
      case None => None
      case Some(k) => HeededOne(k, heard[|heard| - 1])
  }

  lemma HeededFrame(k: Kept, frame: Frame)
    ensures Accepted(k.state, frame).Err? ==> HeededOne(k, Delivered(frame)).None?
    ensures Accepted(k.state, frame).Ok? &&
            MadeDurable(Accepted(k.state, frame).value, frame.offset, |frame.data|).Ok? ==>
              var (state, credit) := MadeDurable(Accepted(k.state, frame).value, frame.offset, |frame.data|).value;
              HeededOne(k, Delivered(frame)) ==
              Some(Kept(state, k.stored + [frame], k.credits + if credit.Some? then [credit.value] else []))
  {
  }

  lemma HeededStatus(k: Kept, status: Status)
    ensures HeededOne(k, Reported(status)) ==
            if status.runningCrc == FinalizedCrc(k.state.durableOffset, Crc32.Update(Crc32.START, Joined(k.stored)))
               && Resynchronised(k.state, status).Ok?
            then Some(k.(state := Resynchronised(k.state, status).value)) else None
  {
  }

  lemma LastingSnoc(start: Receiver, heard: seq<Heard>, h: Heard, writeFailed: bool)
    requires Heeded(start, heard).Some?
    ensures var k := Heeded(start, heard).value;
            && Heeded(start, heard + [h]) == HeededOne(k, h)
            && Lasting(start, heard + [h], writeFailed) ==
               if HeededOne(k, h).Some? && !writeFailed then HeededOne(k, h).value.stored else k.stored
  {
    HeededSnoc(start, heard, h);
    assert (heard + [h])[..|heard|] == heard;
  }

  lemma HeededSnoc(start: Receiver, heard: seq<Heard>, h: Heard)
    ensures Heeded(start, heard + [h]) == match Heeded(start, heard) case None => None case Some(k) => HeededOne(k, h)
  {
    assert (heard + [h])[..|heard|] == heard;
  }

  function FramesIn(heard: seq<Heard>): seq<Frame> {
    if heard == [] then []
    else
      var last := heard[|heard| - 1];
      FramesIn(heard[..|heard| - 1]) + if last.Delivered? then [last.frame] else []
  }

  /** Nothing delivered is passed over: what was heeded is stored, without gaps, up to the durable offset. */
  lemma {:induction false} AllHeededIsStored(start: Receiver, heard: seq<Heard>)
    requires start.durableOffset == 0 && Heeded(start, heard).Some?
    ensures var k := Heeded(start, heard).value;
            && k.stored == FramesIn(heard) && GapFree(k.stored)
            && |Joined(k.stored)| == k.state.durableOffset
  {
    hide HeededOne, GapFree;
    if heard == [] {
      assert GapFree([]) by { NothingIsGapFree(); }
    } else {
      var front, h := heard[..|heard| - 1], heard[|heard| - 1];
      AllHeededIsStored(start, front);
      HeededIsStored(Heeded(start, front).value, h);
      assert FramesIn(front) + [] == FramesIn(front);
    }
  }

  lemma NothingIsGapFree()
    ensures GapFree([])
  {
  }

  lemma HeededIsStored(k: Kept, h: Heard)
    requires GapFree(k.stored) && |Joined(k.stored)| == k.state.durableOffset && HeededOne(k, h).Some?
    ensures var after := HeededOne(k, h).value;
            && after.stored == k.stored + (if h.Delivered? then [h.frame] else [])
            && GapFree(after.stored) && |Joined(after.stored)| == after.state.durableOffset
  {
    hide GapFree;
    if h.Delivered? { JoinedSnoc(k.stored, h.frame); } else { assert k.stored + [] == k.stored; }
  }

  /** The receiver for an opening that the driver accepts. */
  function StartFor(reply: OpenResponse, requestedWindow: nat): Option<Receiver> {
    if reply.direction != Readback || reply.durableOffset != 0 || reply.initialCredits > requestedWindow then None
    else
      match NewReceiver(reply.streamId, reply.totalSize, reply.chunkSize, reply.initialCredits)
      case Err(_) => None
      case Ok(start) => Some(start)
  }

  /**
   The frames that were delivered, accepted and stored, given whether the last write failed: all of them, or all
   but the last where that is what could not be heeded or written.
   */
  function Lasting(start: Receiver, heard: seq<Heard>, writeFailed: bool): seq<Frame> {
    if Heeded(start, heard).Some? && !writeFailed then Heeded(start, heard).value.stored
    else if heard == [] then []
    else
      match Heeded(start, heard[..|heard| - 1])
      case None => []
      case Some(k) => k.stored
  }

  ghost function StoredFrames(transport: Transport, output: Output, requestedWindow: nat): seq<Frame>
    reads transport, output
  {
    if transport.reply.None? || StartFor(transport.reply.value, requestedWindow).None? then []
    else Lasting(StartFor(transport.reply.value, requestedWindow).value, transport.heard, output.writeFailed)
  }

  /** The peer opened acceptably, everything it sent was heeded, and it confirmed size and checksum at the end. */
  ghost predicate Confirmed(transport: Transport, content: Bytes, requestedWindow: nat)
    reads transport
  {
    && transport.reply.Some? && StartFor(transport.reply.value, requestedWindow).Some?
    && AllKept(Heeded(StartFor(transport.reply.value, requestedWindow).value, transport.heard), transport.credited,
        content)
    && |content| == transport.reply.value.totalSize
    && transport.finished.Some? && Matches(transport.finished.value, transport.reply.value, content)
  }

  ghost predicate AllKept(kept: Option<Kept>, credited: seq<Credit>, content: Bytes) {
    kept.Some? && content == Joined(kept.value.stored) && GapFree(kept.value.stored) && credited == kept.value.credits
  }

  predicate Matches(finish: FinishResponse, reply: OpenResponse, content: Bytes) {
    && finish.streamId == reply.streamId && finish.committed && finish.totalBytes == reply.totalSize
    && finish.crc == Crc32.Finished(Crc32.Update(Crc32.START, content))
  }

  /** Something the driver is not to blame for. */
  ghost predicate Excused(transport: Transport, output: Output, requestedWindow: nat)
    reads transport, output
  {
    || transport.failed || output.failed
    || (transport.reply.Some? && StartFor(transport.reply.value, requestedWindow).None?)
    || (transport.reply.Some? && StartFor(transport.reply.value, requestedWindow).Some?
        && Heeded(StartFor(transport.reply.value, requestedWindow).value, transport.heard).None?)
    || (transport.reply.Some? && transport.finished.Some?
        && !Matches(transport.finished.value, transport.reply.value, output.content))
  }

  /** The driver between two answers: all that was heard is heeded, stored and credited. */
  ghost predicate InStep(
    transport: Transport, output: Output, start: Receiver, state: Receiver, crc: bv32, stored: seq<Frame>)
    reads transport, output
  {
    && Heeded(start, transport.heard) == Some(Kept(state, stored, transport.credited))
    && Settled(state, output.content, crc, stored) && output.position == |output.content|
    && !transport.failed && !output.failed && !output.writeFailed && !output.rollbackFailed
    && transport.finished.None?
  }

  /**
   Success means that the output is the gap-free concatenation of all frames the transport delivered, each accepted
   by the receiver in its turn, with the size of the recorded opening and the checksum of the recorded finish. On
   a failure whose rollback held, it is what the frames accepted and stored before it make. It fails only for
   cause.
   */
  method ReadBack(transport: Transport, output: Output, requestedWindow: nat) returns (r: Result<Summary, Error>)
    requires transport.Unused() && output.Unused() && requestedWindow < U8_LIMIT
    modifies transport, output
    ensures r.Ok? ==> Confirmed(transport, output.content, requestedWindow)
    ensures r.Ok? ==> r.value == Summary(transport.reply.value.totalSize, transport.finished.value.crc)
    ensures r.Err? ==> Excused(transport, output, requestedWindow)
    ensures r.Err? && !output.rollbackFailed ==>
              output.content == Joined(StoredFrames(transport, output, requestedWindow))
  {
    hide Heeded, HeededOne, Lasting, Settled;
    var answer := transport.Open();
    if answer.None? { return Err(TransportFailed); }
    var reply := answer.value;
    if reply.direction != Readback || reply.durableOffset != 0 || reply.initialCredits > requestedWindow {
      var _ := transport.Abort(reply.streamId);
      return Err(Protocol);
    }
    if NewReceiver(reply.streamId, reply.totalSize, reply.chunkSize, reply.initialCredits).Err? {
      var _ := transport.Abort(reply.streamId);
      return Err(Protocol);
    }
    var state := new BulkReadbackState(reply.streamId, reply.totalSize, reply.chunkSize, reply.initialCredits);
    var crc := Crc32.START;
    ghost var start, stored: seq<Frame> := state.State(), [];
    StartSettled(start);

    while state.durableOffset < reply.totalSize
      invariant transport.reply == Some(reply) && StartFor(reply, requestedWindow) == Some(start)
      invariant InStep(transport, output, start, state.State(), crc, stored)
      invariant state.totalSize == reply.totalSize && state.durableOffset <= state.totalSize
      decreases transport.patience
    {
      ghost var heard := transport.heard;
      var polled := transport.PollData();
      match polled {
        case Data(frame) =>
          var error;
          error, crc, stored := TakeFrame(transport, output, state, crc, frame, start, heard, stored);
          if error.Some? { return Err(error.value); }
        case Timeout =>
          var error := Resynchronise(transport, output, state, crc, start, stored);
          if error.Some? { return Err(error.value); }
        case Lost =>
          SettledMeans(state.State(), output.content, crc, stored);
          LastingNow(start, heard);
          r := RollBackAndAbort(transport, output, reply.streamId, state.durableOffset, TransportFailed, stored);
          return;
      }
    }

    SettledMeans(state.State(), output.content, crc, stored);
    LastingNow(start, transport.heard);
    var flushed := output.Flush();
    if !flushed {
      var _ := transport.Abort(reply.streamId);
      return Err(OutputFailed);
    }
    var finish := transport.Finish(reply.streamId);
    if finish.None? {
      var _ := transport.Abort(reply.streamId);
      return Err(TransportFailed);
    }
    if finish.value.streamId != reply.streamId || !finish.value.committed
       || finish.value.totalBytes != reply.totalSize || finish.value.crc != Crc32.Finished(crc)
    {
      var _ := transport.Abort(reply.streamId);
      return Err(Protocol);
    }
    return Ok(Summary(reply.totalSize, Crc32.Finished(crc)));
  }

  lemma StartSettled(start: Receiver)
    requires start.receivedOffset == start.durableOffset == start.pendingCredits == 0
    requires start.creditBatch == CreditBatch(start.maximumCredits)
    requires start.chunkSize > 0 && start.totalSize < U32_LIMIT && start.maximumCredits < U8_LIMIT
    ensures Settled(start, [], Crc32.START, []) && Heeded(start, []) == Some(Kept(start, [], []))
  {
  }

  lemma SettledMeans(state: Receiver, content: Bytes, crc: bv32, stored: seq<Frame>)
    requires Settled(state, content, crc, stored)
    ensures content == Joined(stored) && GapFree(stored) && crc == Crc32.Update(Crc32.START, content)
    ensures state.receivedOffset == state.durableOffset == |content|
  {
  }

  /** A delivered frame: stored and credited if the receiver accepts it, otherwise the end of the transfer. */
  method TakeFrame(
    transport: Transport, output: Output, state: BulkReadbackState, crc: bv32, frame: Frame,
    ghost start: Receiver, ghost heard: seq<Heard>, ghost stored: seq<Frame>)
    returns (error: Option<Error>, crc': bv32, ghost stored': seq<Frame>)
    requires transport.heard == heard + [Delivered(frame)]
    requires Heeded(start, heard) == Some(Kept(state.State(), stored, transport.credited))
    requires Settled(state.State(), output.content, crc, stored) && output.position == |output.content|
    requires !transport.failed && !output.failed && !output.writeFailed && !output.rollbackFailed
    requires transport.finished.None? && state.durableOffset < state.totalSize
    modifies transport`credited, transport`failed, output, state
    ensures error.None? ==>
              InStep(transport, output, start, state.State(), crc', stored') && state.durableOffset <= state.totalSize
    ensures error.Some? ==> transport.failed || output.failed || Heeded(start, transport.heard).None?
    ensures error.Some? && !output.rollbackFailed ==>
              output.content == Joined(Lasting(start, transport.heard, output.writeFailed))
  {
    hide Heeded, HeededOne, Lasting, Settled, Accepted, MadeDurable, Joined, Crc32.Update;
    crc', stored' := crc, stored;
    ghost var before := state.State();
    HeededFrame(Kept(before, stored, transport.credited), frame);
    LastingSnoc(start, heard, Delivered(frame), false);
    LastingSnoc(start, heard, Delivered(frame), true);
    ghost var owed := transport.credited;
    assert owed + [] == owed;
    SettledMeans(before, output.content, crc, stored);
    var refused := state.Accept(frame);
    if refused.Some? {
      var r := RollBackAndAbort(transport, output, state.streamId, state.durableOffset, Protocol, stored);
      return Some(r.error), crc', stored';
    }
    AcceptedFrameIsStored(before, output.content, crc, stored, frame);
    JoinedSnoc(stored, frame);
    var written := output.WriteAll(frame.data);
    if !written {
      var r := RollBackAndAbort(transport, output, state.streamId, state.durableOffset, OutputFailed, stored);
      return Some(r.error), crc', stored';
    }
    crc' := Crc32.UpdateLoop(crc, frame.data);
    var marked := state.MarkDurable(frame.offset, |frame.data|);
    if marked.Err? {
      assert false;
    }
    stored' := stored + [frame];
    if marked.value.Some? {
      var sent := transport.SendCredit(marked.value.value);
      if !sent {
        SettledMeans(state.State(), output.content, crc', stored');
        var r := RollBackAndAbort(transport, output, state.streamId, state.durableOffset, TransportFailed, stored');
        return Some(r.error), crc', stored';
      }
    }
    return None, crc', stored';
  }

  /** A timeout: the peer's status must fit what is stored; both ends then go on from the durable offset. */
  method Resynchronise(
    transport: Transport, output: Output, state: BulkReadbackState, crc: bv32, ghost start: Receiver,
    ghost stored: seq<Frame>)
    returns (error: Option<Error>)
    requires InStep(transport, output, start, state.State(), crc, stored) && state.durableOffset <= state.totalSize
    modifies transport`heard, transport`failed, output, state
    ensures error.None? ==>
              InStep(transport, output, start, state.State(), crc, stored) && state.durableOffset <= state.totalSize
    ensures error.Some? ==> transport.failed || output.failed || Heeded(start, transport.heard).None?
    ensures error.Some? && !output.rollbackFailed ==>
              output.content == Joined(Lasting(start, transport.heard, output.writeFailed))
  {
    hide Heeded, HeededOne, Lasting, Settled;
    ghost var heard, before := transport.heard, state.State();
    SettledMeans(before, output.content, crc, stored);
    LastingNow(start, heard);
    var flushed := output.Flush();
    if !flushed {
      var _ := transport.Abort(state.streamId);
      return Some(OutputFailed);
    }
    var status := transport.QueryStatus(state.streamId);
    if status.None? {
      var _ := transport.Abort(state.streamId);
      return Some(TransportFailed);
    }
    HeededStatus(Kept(before, stored, transport.credited), status.value);
    LastingSnoc(start, heard, Reported(status.value), false);
    if status.value.runningCrc != FinalizedCrc(state.durableOffset, crc) {
      var r := RollBackAndAbort(transport, output, state.streamId, state.durableOffset, Protocol, stored);
      return Some(r.error);
    }
    var refused := state.ApplyStatus(status.value);
    if refused.Some? {
      var r := RollBackAndAbort(transport, output, state.streamId, state.durableOffset, Protocol, stored);
      return Some(r.error);
    }
    var back := output.Rollback(state.durableOffset);
    if !back { return Some(OutputFailed); }
    StatusSettles(before, output.content, crc, stored, status.value);
    return None;
  }

  lemma StatusSettles(state: Receiver, content: Bytes, crc: bv32, stored: seq<Frame>, status: Status)
    requires Settled(state, content, crc, stored) && Resynchronised(state, status).Ok?
    ensures Settled(Resynchronised(state, status).value, content, crc, stored)
  {
  }

  lemma LastingNow(start: Receiver, heard: seq<Heard>)
    requires Heeded(start, heard).Some?
    ensures Lasting(start, heard, false) == Heeded(start, heard).value.stored
  {
  }

  /** The error exits of the loop: roll the output back to the durable offset, then abort the transfer. */
  method RollBackAndAbort(
    transport: Transport, output: Output, streamId: nat, durable: nat, error: Error, ghost stored: seq<Frame>)
    returns (r: Result<Summary, Error>)
    requires Joined(stored) <= output.content && durable == |Joined(stored)|
    modifies output`content, output`position, output`failed, output`rollbackFailed
    ensures r == Err(if output.rollbackFailed then OutputFailed else error)
    ensures output.rollbackFailed ==> output.failed
    ensures old(output.failed) ==> output.failed
    ensures !output.rollbackFailed ==> output.content == Joined(stored)
  {
    var back := output.Rollback(durable);
    if !back { return Err(OutputFailed); }
    var _ := transport.Abort(streamId);
    return Err(error);
  }
}
