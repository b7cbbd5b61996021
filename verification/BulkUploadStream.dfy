/** The upload driver: it sends a file over an arbitrary transport and follows the peer's status rewinds. */
module BulkUploadStream {
  import opened Common
  import opened BulkState
  import Crc32

  datatype PollAnswer = Arrived(credit: Credit) | Timeout | Lost

  datatype Error = TooLarge | SourceFailed | Protocol | TransportFailed

  datatype Summary = Summary(bytes: nat, crc: bv32, libraryVisible: bool)

  /** What goes over the line while data flows: frames one way, credits and statuses the other. */
  datatype Traffic = Sent(frame: Frame) | Acknowledged(credit: Credit) | Reported(status: Status)

  /** A transport that may answer anything, and keeps a record of what it was given and of its answers. */
  class Transport {
    var patience: nat
    ghost var reply: Option<OpenResponse>
    ghost var line: seq<Traffic>
    ghost var finished: Option<FinishResponse>
    ghost var library: Option<bool>
    ghost var failed: bool

    ghost predicate Unused()
      reads this
    {
      reply.None? && line == [] && finished.None? && library.None? && !failed
    }

    constructor (patience: nat)
      ensures Unused()
    {
      this.patience := patience;
      reply, line, finished, library, failed := None, [], None, None, false;
    }

    /** The chunk size is a 16-bit field of the reply. */
    method Open(total: nat) returns (r: Option<OpenResponse>)
      modifies this`reply, this`failed
      ensures reply == r && failed == (old(failed) || r.None?)
      ensures r.Some? ==> r.value.chunkSize < U16_LIMIT
    {
      r := *;
      if r.Some? && r.value.chunkSize >= U16_LIMIT { r := None; }
      reply, failed := r, failed || r.None?;
    }

    method SendData(frame: Frame) returns (ok: bool)
      modifies this`line, this`failed
      ensures line == old(line) + [Sent(frame)] && failed == (old(failed) || !ok)
    {
      ok := *;
      line, failed := line + [Sent(frame)], failed || !ok;
    }

    method PollCredit() returns (answer: PollAnswer)
      modifies this`patience, this`line, this`failed
      ensures patience <= old(patience)
      ensures !answer.Lost? ==> patience < old(patience)
      ensures line == if answer.Arrived? then old(line) + [Acknowledged(answer.credit)] else old(line)
      ensures failed == (old(failed) || answer.Lost?)
    {
      answer := *;
      if patience == 0 { answer := Lost; }
      if !answer.Lost? { patience := patience - 1; }
      if answer.Arrived? { line := line + [Acknowledged(answer.credit)]; }
      failed := failed || answer.Lost?;
    }

    method QueryStatus(streamId: nat) returns (r: Option<Status>)
      modifies this`line, this`failed
      ensures line == if r.Some? then old(line) + [Reported(r.value)] else old(line)
      ensures failed == (old(failed) || r.None?)
    {
      r := *;
      if r.Some? { line := line + [Reported(r.value)]; }
      failed := failed || r.None?;
    }

    method Finish(streamId: nat) returns (r: Option<FinishResponse>)
      modifies this`finished, this`failed
      ensures finished == r && failed == (old(failed) || r.None?)
    {
      r := *;
      finished, failed := r, failed || r.None?;
    }

    method Abort(streamId: nat) returns (confirmed: bool) {
      confirmed := *;
    }

    method WaitLibrary() returns (r: Option<bool>)
      modifies this`library, this`failed
      ensures library == r && failed == (old(failed) || r.None?)
    {
      r := *;
      library, failed := r, failed || r.None?;
    }
  }

  /** The source file: its content does not change during the upload, but any access may fail, which is recorded. */
  class Source {
    const content: Bytes
    var cursor: nat
    ghost var failed: bool

    constructor (content: Bytes)
      ensures this.content == content && !failed
    {
      this.content := content;
      cursor, failed := 0, false;
    }

    /** Fills the first `wanted` bytes of the buffer from the cursor on. */
    method ReadExact(buffer: array<Byte>, wanted: nat) returns (ok: bool)
      requires wanted <= buffer.Length
      modifies this, buffer
      ensures ok ==>
                && old(cursor) + wanted <= |content|
                && buffer[..wanted] == content[old(cursor)..old(cursor) + wanted]
                && cursor == old(cursor) + wanted
      ensures failed == (old(failed) || !ok)
    {
      ok := *;
      ok := ok && cursor + wanted <= |content|;
      if ok {
        forall i | 0 <= i < wanted {
          buffer[i] := content[cursor + i];
        }
        cursor := cursor + wanted;
      } else {
        cursor := *;
      }
      failed := failed || !ok;
    }

    method SeekTo(offset: nat) returns (ok: bool)
      modifies this
      ensures ok ==> cursor == offset
      ensures failed == (old(failed) || !ok)
    {
      ok := *;
      if ok { cursor := offset; }
      failed := failed || !ok;
    }
  }

  // ---- What the record of the line says ----

  /** A frame that carries exactly the source at its offset, and says rightly whether it ends it. */
  ghost predicate Honest(content: Bytes, streamId: nat, frame: Frame) {
    && frame.streamId == streamId
    && frame.data != []
    && frame.offset + |frame.data| <= |content|
    && frame.data == content[frame.offset..frame.offset + |frame.data|]
    && (frame.endOfData <==> frame.offset + |frame.data| == |content|)
  }

  /** The sender after one piece of traffic; `None` for a frame it may not send or an answer it has to refuse. */
  ghost function FollowedOne(content: Bytes, s: Sender, t: Traffic): (after: Option<Sender>)
    requires s.chunkSize > 0
    ensures after.Some? ==>
              after.value == s.(availableCredits := after.value.availableCredits, sentOffset := after.value.sentOffset,
                                durableOffset := after.value.durableOffset)
  {
    match t
    case Sent(frame) =>
      (match Granted(s, |frame.data|)
       case Ok((after, grant)) =>
         if Honest(content, s.streamId, frame) && frame.offset == grant.offset && frame.endOfData == grant.endOfData
         then Some(after) else None
       case Err(_) => None)
    case Acknowledged(credit) =>
      (match Credited(s, credit)
       case Ok(after) => Some(after)
       case Err(_) => None)
    case Reported(status) =>
      match Rewound(s, status)
      case Ok(after) => Some(after)
      case Err(_) => None
  }

  ghost function Followed(content: Bytes, start: Sender, line: seq<Traffic>): (after: Option<Sender>)
    requires start.chunkSize > 0
    ensures after.Some? ==>
              after.value == start.(availableCredits := after.value.availableCredits,
                                    sentOffset := after.value.sentOffset, durableOffset := after.value.durableOffset)
  {
    if line == [] then Some(start)
    else
      match Followed(content, start, line[..|line| - 1])
      case None => None
      case Some(s) => FollowedOne(content, s, line[|line| - 1])
  }

  lemma FollowedSnoc(content: Bytes, start: Sender, line: seq<Traffic>, t: Traffic)
    requires start.chunkSize > 0 && Followed(content, start, line).Some?
    ensures Followed(content, start, line + [t]) == FollowedOne(content, Followed(content, start, line).value, t)
    ensures (line + [t])[..|line|] == line
  {
    assert (line + [t])[..|line|] == line;
  }

  function FramesIn(line: seq<Traffic>): seq<Frame> {
    if line == [] then []
    else
      var last := line[|line| - 1];
      FramesIn(line[..|line| - 1]) + if last.Sent? then [last.frame] else []
  }

  /** The durable offsets the peer has acknowledged, by credits and statuses, in order. */
  function AcknowledgedOffsets(line: seq<Traffic>): seq<nat> {
    if line == [] then []
    else
      var earlier := AcknowledgedOffsets(line[..|line| - 1]);
      match line[|line| - 1]
      case Sent(_) => earlier
      case Acknowledged(credit) => earlier + [credit.durableOffset]
      case Reported(status) => earlier + [status.durableOffset]
  }

  /** Frames sent since the last status less the credits returned since. */
  function Outstanding(line: seq<Traffic>): int {
    if line == [] then 0
    else
      match line[|line| - 1]
      case Sent(_) => Outstanding(line[..|line| - 1]) + 1
      case Acknowledged(credit) => Outstanding(line[..|line| - 1]) - credit.credits
      case Reported(_) => 0
  }

  ghost predicate Carries(frame: Frame, p: nat) {
    frame.offset <= p < frame.offset + |frame.data|
  }

  ghost predicate SomeCarries(frames: seq<Frame>, p: nat) {
    exists i :: 0 <= i < |frames| && Carries(frames[i], p)
  }

  /** Every byte before `end` has been in some frame. */
  ghost predicate Covered(frames: seq<Frame>, end: nat) {
    forall p: nat :: p < end ==> SomeCarries(frames, p)
  }

  lemma CoveredSnoc(frames: seq<Frame>, end: nat, last: Frame)
    requires Covered(frames, end) && last.offset == end
    ensures Covered(frames + [last], end + |last.data|)
  {
    var longer := frames + [last];
    forall p: nat | p < end + |last.data|
      ensures SomeCarries(longer, p)
    {
      if p < end {
        assert SomeCarries(frames, p);
        var i :| 0 <= i < |frames| && Carries(frames[i], p);
        assert longer[i] == frames[i];
      } else {
        assert Carries(longer[|frames|], p);
      }
    }
  }

  ghost predicate Nondecreasing(offsets: seq<nat>) {
    forall i, j :: 0 <= i <= j < |offsets| ==> offsets[i] <= offsets[j]
  }

  ghost predicate FrameFits(content: Bytes, s: Sender, frame: Frame) {
    Honest(content, s.streamId, frame) && |frame.data| <= s.chunkSize
  }

  /**
   What it means that the sender could follow the line: every frame is an honest chunk, none more than the window
   are ever outstanding, every byte up to the sent offset was in some frame, and the acknowledged offsets never
   go back and end at the sender's.
   */
  lemma {:induction false} FollowedIsSound(content: Bytes, start: Sender, line: seq<Traffic>)
    requires start.chunkSize > 0 && start.durableOffset == start.sentOffset == 0
    requires start.availableCredits == start.maximumCredits && Followed(content, start, line).Some?
    ensures var s, offsets := Followed(content, start, line).value, AcknowledgedOffsets(line);
            && (forall f :: f in FramesIn(line) ==> FrameFits(content, start, f))
            && 0 <= Outstanding(line) <= start.maximumCredits
            && s.availableCredits + Outstanding(line) == start.maximumCredits
            && Covered(FramesIn(line), s.sentOffset) && s.durableOffset <= s.sentOffset
            && Nondecreasing(offsets)
            && s.durableOffset == (if offsets == [] then 0 else offsets[|offsets| - 1])
  {
    if line != [] {
      var front, t := line[..|line| - 1], line[|line| - 1];
      FollowedIsSound(content, start, front);
      var before := Followed(content, start, front).value;
      if t.Sent? {
        CoveredSnoc(FramesIn(front), before.sentOffset, t.frame);
      } else {
        assert FramesIn(line) == FramesIn(front);
      }
    }
  }

  // ---- The driver ----

  /** The sender for an opening that the driver accepts. */
  function StartFor(reply: OpenResponse, total: nat, requestedWindow: nat): Option<Sender> {
    if reply.direction != Direction.Upload || reply.totalSize != total || reply.durableOffset != 0
       || reply.initialCredits > requestedWindow then None
    else
      match NewSender(reply.streamId, total, reply.chunkSize, reply.initialCredits, reply.initialCredits)
      case Err(_) => None
      case Ok(start) => Some(start)
  }

  /** All traffic could be followed, except that an answer at the very end may have had to be refused. */
  ghost predicate Trailed(content: Bytes, start: Sender, line: seq<Traffic>)
    requires start.chunkSize > 0
  {
    || Followed(content, start, line).Some?
    || (line != [] && !line[|line| - 1].Sent? && Followed(content, start, line[..|line| - 1]).Some?)
  }

  lemma {:induction false} FollowedPrefix(content: Bytes, start: Sender, line: seq<Traffic>, k: nat)
    requires start.chunkSize > 0 && k <= |line| && Followed(content, start, line).Some?
    ensures Followed(content, start, line[..k]).Some?
  {
    if k == |line| {
      assert line[..k] == line;
    } else {
      FollowedPrefix(content, start, line[..|line| - 1], k);
      assert line[..|line| - 1][..k] == line[..k];
    }
  }

  /** However the upload ended: only honest chunks were sent, and at no time were more outstanding than the window. */
  lemma TrailedIsSound(content: Bytes, start: Sender, line: seq<Traffic>, k: nat)
    requires start.chunkSize > 0 && start.durableOffset == start.sentOffset == 0
    requires start.availableCredits == start.maximumCredits && Trailed(content, start, line)
    requires k < |line| || (k == |line| && Followed(content, start, line).Some?)
    ensures forall f :: f in FramesIn(line) ==> FrameFits(content, start, f)
    ensures 0 <= Outstanding(line[..k]) <= start.maximumCredits
  {
    var whole := Followed(content, start, line).Some?;
    var front := if whole then line else line[..|line| - 1];
    FollowedPrefix(content, start, front, k);
    assert front[..k] == line[..k];
    FollowedIsSound(content, start, front);
    FollowedIsSound(content, start, front[..k]);
    assert FramesIn(line) == FramesIn(front);
  }

  predicate Matches(finish: FinishResponse, reply: OpenResponse, content: Bytes) {
    && finish.streamId == reply.streamId && finish.committed && finish.totalBytes == |content|
    && finish.crc == Crc32.Finished(Crc32.Update(Crc32.START, content))
  }

  /** The peer opened acceptably, acknowledged the whole source, and confirmed size and checksum at the end. */
  ghost predicate Confirmed(transport: Transport, content: Bytes, requestedWindow: nat)
    reads transport
  {
    && transport.reply.Some? && StartFor(transport.reply.value, |content|, requestedWindow).Some?
    && AllAcknowledged(StartFor(transport.reply.value, |content|, requestedWindow).value, content, transport.line)
    && transport.finished.Some? && Matches(transport.finished.value, transport.reply.value, content)
  }

  ghost predicate AllAcknowledged(start: Sender, content: Bytes, line: seq<Traffic>) {
    && start.chunkSize > 0 && Followed(content, start, line).Some?
    && Followed(content, start, line).value.durableOffset == |content|
  }

  /** Something the driver is not to blame for. */
  ghost predicate Excused(transport: Transport, source: Source, requestedWindow: nat)
    reads transport, source
  {
    || transport.failed || source.failed || |source.content| >= U32_LIMIT
    || (transport.reply.Some? && StartFor(transport.reply.value, |source.content|, requestedWindow).None?)
    || (transport.reply.Some? && StartFor(transport.reply.value, |source.content|, requestedWindow).Some?
        && Refused(source.content, StartFor(transport.reply.value, |source.content|, requestedWindow).value,
            transport.line))
    || (transport.reply.Some? && transport.finished.Some?
        && !Matches(transport.finished.value, transport.reply.value, source.content))
  }

  ghost predicate Refused(content: Bytes, start: Sender, line: seq<Traffic>) {
    start.chunkSize > 0 && Followed(content, start, line).None?
  }

  /** The source cursor follows the sender, and the sender has followed the line. */
  ghost predicate InStep(transport: Transport, source: Source, start: Sender, state: Sender)
    reads transport, source
  {
    && start.chunkSize > 0 && Followed(source.content, start, transport.line) == Some(state)
    && state.totalSize == |source.content| && 0 < |source.content| < U32_LIMIT
    && source.cursor == state.sentOffset
    && state.durableOffset <= state.sentOffset <= |source.content|
    && !transport.failed && !source.failed && transport.finished.None?
  }

  /** The chunk the driver asks for is always granted. */
  lemma WantedIsGranted(state: Sender, total: nat)
    requires state.totalSize == total < U32_LIMIT && state.chunkSize > 0
    requires state.availableCredits > 0 && state.sentOffset < total
    ensures var wanted := Min(total - state.sentOffset, state.chunkSize);
            Granted(state, wanted) ==
            Ok((state.(sentOffset := state.sentOffset + wanted, availableCredits := state.availableCredits - 1),
                Grant(state.sentOffset, state.sentOffset + wanted == total)))
  {
  }

  /** The frame made of the granted chunk is one the sender may send. */
  lemma WantedIsFollowed(content: Bytes, state: Sender, frame: Frame)
    requires state.totalSize == |content| < U32_LIMIT && state.chunkSize > 0
    requires state.availableCredits > 0 && state.sentOffset < |content|
    requires var wanted := Min(|content| - state.sentOffset, state.chunkSize);
             frame == Frame(state.streamId, state.sentOffset, state.sentOffset + wanted == |content|,
                            content[state.sentOffset..state.sentOffset + wanted])
    ensures FollowedOne(content, state, Sent(frame)) ==
            Some(state.(sentOffset := state.sentOffset + |frame.data|, availableCredits := state.availableCredits - 1))
  {
    WantedIsGranted(state, |content|);
  }

  /** Sends chunks while there are credits and data. */
  method SendWindow(
    source: Source, transport: Transport, state: BulkUploadState, buffer: array<Byte>, ghost start: Sender)
    returns (error: Option<Error>)
    requires InStep(transport, source, start, state.State()) && buffer.Length == state.chunkSize
    modifies source, transport`line, transport`failed, state`sentOffset, state`availableCredits, buffer
    ensures error.None? ==>
              && InStep(transport, source, start, state.State())
              && (state.availableCredits == 0 || state.sentOffset == |source.content|)
    ensures error.Some? ==> transport.failed || source.failed
    ensures Followed(source.content, start, transport.line).Some?
  {
    hide Followed, FollowedOne, Granted;
    error := None;
    while state.availableCredits != 0 && state.sentOffset < state.totalSize
      invariant InStep(transport, source, start, state.State())
      decreases state.availableCredits
    {
      var wanted := Min(state.totalSize - state.sentOffset, state.chunkSize);
      var filled := source.ReadExact(buffer, wanted);
      if !filled { return Some(SourceFailed); }
      ghost var before, line := state.State(), transport.line;
      WantedIsGranted(before, |source.content|);
      var grant := state.TakeGrant(wanted);
      if grant.Err? {
        assert false;
      }
      var frame := Frame(state.streamId, grant.value.offset, grant.value.endOfData, buffer[..wanted]);
      WantedIsFollowed(source.content, before, frame);
      FollowedSnoc(source.content, start, line, Sent(frame));
      var ok := transport.SendData(frame);
      if !ok { return Some(TransportFailed); }
    }
  }

  /** Takes one credit, or on a timeout follows the peer's status back and moves the source cursor there. */
  method AwaitAnswer(source: Source, transport: Transport, state: BulkUploadState, ghost start: Sender)
    returns (error: Option<Error>)
    requires InStep(transport, source, start, state.State())
    modifies source, transport`patience, transport`line, transport`failed, state
    ensures error.None? ==>
              && InStep(transport, source, start, state.State())
              && transport.patience < old(transport.patience)
    ensures error.Some? ==>
              transport.failed || source.failed || Followed(source.content, start, transport.line).None?
    ensures Trailed(source.content, start, transport.line)
  {
    ghost var line := transport.line;
    var polled := transport.PollCredit();
    match polled {
      case Arrived(credit) =>
        FollowedSnoc(source.content, start, line, Acknowledged(credit));
        var refused := state.ApplyCredit(credit);
        return if refused.Some? then Some(Protocol) else None;
      case Timeout =>
        var status := transport.QueryStatus(state.streamId);
        if status.None? { return Some(TransportFailed); }
        FollowedSnoc(source.content, start, line, Reported(status.value));
        var refused := state.ApplyStatus(status.value);
        if refused.Some? { return Some(Protocol); }
        var positioned := source.SeekTo(state.sentOffset);
        return if positioned then None else Some(SourceFailed);
      case Lost =>
        return Some(TransportFailed);
    }
  }

  /**
   Whatever the transport answers, the line can be followed to the last answer: every frame is one the sender may
   send and the local grant is never refused. Success means that the peer's own answers acknowledge the whole
   source and confirm its size and checksum. It fails only for cause.
   */
  method Upload(source: Source, requestedWindow: nat, skipLibraryWait: bool, transport: Transport)
    returns (r: Result<Summary, Error>)
    requires transport.Unused() && !source.failed
    modifies source, transport
    ensures transport.line != [] ==>
              && transport.reply.Some?
              && var start := StartFor(transport.reply.value, |source.content|, requestedWindow);
                 start.Some? && start.value.chunkSize > 0 && Trailed(source.content, start.value, transport.line)
    ensures r.Ok? ==> Confirmed(transport, source.content, requestedWindow)
    ensures r.Ok? ==>
              && r.value.bytes == |source.content| && r.value.crc == transport.finished.value.crc
              && (if skipLibraryWait then !r.value.libraryVisible
                  else transport.library == Some(r.value.libraryVisible))
    ensures r.Err? ==> Excused(transport, source, requestedWindow)
  {
    hide Followed, FollowedOne;
    var measured := source.SeekTo(0);
    if !measured { return Err(SourceFailed); }
    var crc := Crc32.UpdateLoop(Crc32.START, source.content);
    crc := Crc32.Finished(crc);
    var total := |source.content|;
    if total >= U32_LIMIT { return Err(TooLarge); }
    var answer := transport.Open(total);
    if answer.None? { return Err(TransportFailed); }
    var reply := answer.value;
    if reply.direction != Direction.Upload || reply.totalSize != total || reply.durableOffset != 0
       || reply.initialCredits > requestedWindow
       || NewSender(reply.streamId, total, reply.chunkSize, reply.initialCredits, reply.initialCredits).Err?
    {
      var _ := transport.Abort(reply.streamId);
      return Err(Protocol);
    }
    var state := new BulkUploadState(reply.streamId, total, reply.chunkSize, reply.initialCredits,
        reply.initialCredits);
    ghost var start := state.State();
    NothingFollowed(source.content, start);
    var positioned := source.SeekTo(0);
    if !positioned {
      var _ := transport.Abort(reply.streamId);
      return Err(SourceFailed);
    }
    var buffer := new Byte[reply.chunkSize];

    while state.durableOffset < total
      invariant InStep(transport, source, start, state.State())
      invariant transport.reply == Some(reply) && StartFor(reply, total, requestedWindow) == Some(start)
      decreases transport.patience
    {
      var failed := SendWindow(source, transport, state, buffer, start);
      if failed.Some? {
        var _ := transport.Abort(state.streamId);
        return Err(failed.value);
      }
      failed := AwaitAnswer(source, transport, state, start);
      if failed.Some? {
        var _ := transport.Abort(state.streamId);
        return Err(failed.value);
      }
    }

    var finish := transport.Finish(state.streamId);
    if finish.None? {
      var _ := transport.Abort(state.streamId);
      return Err(TransportFailed);
    }
    if finish.value.streamId != state.streamId || !finish.value.committed
       || finish.value.totalBytes != total || finish.value.crc != crc
    {
      var _ := transport.Abort(state.streamId);
      return Err(Protocol);
    }
    var visible := false;
    if !skipLibraryWait {
      var waited := transport.WaitLibrary();
      if waited.None? { return Err(TransportFailed); }
      visible := waited.value;
    }
    return Ok(Summary(total, crc, visible));
  }

  lemma NothingFollowed(content: Bytes, start: Sender)
    requires start.chunkSize > 0
    ensures Followed(content, start, []) == Some(start)
  {
  }

  /**
   What a confirmed upload has done: the whole source was sent in honest chunks and acknowledged, never going
   back.
   */
  lemma ConfirmedMeans(transport: Transport, content: Bytes, requestedWindow: nat)
    requires Confirmed(transport, content, requestedWindow)
    ensures var start, offsets :=
              StartFor(transport.reply.value, |content|, requestedWindow).value, AcknowledgedOffsets(transport.line);
            && Covered(FramesIn(transport.line), |content|)
            && (forall f :: f in FramesIn(transport.line) ==> FrameFits(content, start, f))
            && Nondecreasing(offsets) && offsets != [] && offsets[|offsets| - 1] == |content|
  {
    var start := StartFor(transport.reply.value, |content|, requestedWindow).value;
    FollowedIsSound(content, start, transport.line);
    SentIsBounded(content, start, transport.line);
  }

  lemma {:induction false} SentIsBounded(content: Bytes, start: Sender, line: seq<Traffic>)
    requires start.chunkSize > 0 && start.sentOffset <= start.totalSize && Followed(content, start, line).Some?
    requires start.durableOffset <= start.sentOffset
    ensures var s := Followed(content, start, line).value;
            s.durableOffset <= s.sentOffset <= s.totalSize == start.totalSize
  {
    if line != [] { SentIsBounded(content, start, line[..|line| - 1]); }
  }
}
