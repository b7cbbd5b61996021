/** What a readback may hear, frame by frame and status by status, without a receiver's state. */
module BulkReadbackRecord {
  import opened Common
  import opened BulkState
  import opened BulkReadbackStream
  import Crc32

  /** A receiver that has heard nothing, for an opening with 32-bit sizes and 8-bit credits. */
  ghost predicate Fresh(start: Receiver) {
    && start.receivedOffset == start.durableOffset == start.pendingCredits == 0
    && start.creditBatch == CreditBatch(start.maximumCredits)
    && 0 < start.chunkSize && 0 < start.totalSize < U32_LIMIT && 0 < start.maximumCredits < U8_LIMIT
  }

  /** The frame goes on where `so far` ends, is a whole chunk unless it ends the transfer, and says so rightly. */
  ghost predicate FrameInTurn(start: Receiver, soFar: Bytes, frame: Frame) {
    var end := |soFar| + |frame.data|;
    && frame.streamId == start.streamId
    && frame.offset == |soFar|
    && 0 < |frame.data| <= start.chunkSize
    && (end < start.totalSize ==> |frame.data| == start.chunkSize)
    && end <= start.totalSize
    && (frame.endOfData <==> end == start.totalSize)
  }

  /** The status names the stream, its whole window, and exactly what has come so far, with its checksum. */
  ghost predicate StatusInTurn(start: Receiver, soFar: Bytes, status: Status) {
    && status.streamId == start.streamId
    && status.direction == Readback
    && status.totalSize == start.totalSize
    && status.availableCredits == start.maximumCredits
    && status.durableOffset == |soFar|
    && status.runningCrc == if soFar == [] then 0 else Crc32.Finished(Crc32.Update(Crc32.START, soFar))
  }

  ghost predicate HeardInTurn(start: Receiver, soFar: Bytes, h: Heard) {
    match h
    case Delivered(frame) => FrameInTurn(start, soFar, frame)
    case Reported(status) => StatusInTurn(start, soFar, status)
  }

  ghost predicate AllInTurn(start: Receiver, heard: seq<Heard>) {
    forall i :: 0 <= i < |heard| ==> HeardInTurn(start, Joined(FramesIn(heard[..i])), heard[i])
  }

  // ---- Credits ----

  /** Chunks delivered since the last status. */
  function SinceStatus(heard: seq<Heard>): nat {
    if heard == [] || heard[|heard| - 1].Reported? then 0 else SinceStatus(heard[..|heard| - 1]) + 1
  }

  /** Half the window, but at least one chunk. */
  function Batch(start: Receiver): (batch: nat)
    ensures batch > 0
  {
    if start.maximumCredits < 2 then 1 else start.maximumCredits / 2
  }

  /** A credit falls due with every full batch of chunks since the last status, and with the end of the transfer. */
  function CreditDue(start: Receiver, frame: Frame, chunks: nat): seq<Credit>
    requires chunks > 0
  {
    if chunks % Batch(start) != 0 && !frame.endOfData then []
    else [Credit(start.streamId, frame.offset + |frame.data|, (chunks - 1) % Batch(start) + 1, 0)]
  }

  function CreditsDue(start: Receiver, heard: seq<Heard>): seq<Credit> {
    if heard == [] then []
    else
      var front := heard[..|heard| - 1];
      match heard[|heard| - 1]
      case Delivered(frame) => CreditsDue(start, front) + CreditDue(start, frame, SinceStatus(front) + 1)
      case Reported(_) => CreditsDue(start, front)
  }

  /** The receiver after all that was heard, as what was heard determines it. */
  ghost predicate Stands(start: Receiver, heard: seq<Heard>, k: Kept) {
    var frames := FramesIn(heard);
    var length := |Joined(frames)|;
    && k == Kept(k.state, frames, CreditsDue(start, heard))
    && length <= start.totalSize
    && k.state == start.(receivedOffset := length, durableOffset := length, pendingCredits :=
         if length == start.totalSize then 0 else SinceStatus(heard) % Batch(start))
  }

  lemma ModStep(n: nat, m: nat)
    requires m > 0
    ensures (n + 1) % m == if n % m + 1 == m then 0 else n % m + 1
  {
    var q, d := n / m, (n + 1) / m;
    var a, b := n % m, (n + 1) % m;
    var gap := m * (d - q);
    assert gap == m * d - m * q;
    assert gap == a + 1 - b;
    if d > q + 1 { AtLeastTwice(m, d - q); } else if d < q { AtLeastOnce(m, q - d); }
  }

  lemma AtLeastOnce(m: nat, k: nat)
    requires k >= 1
    ensures m * k >= m
  {
  }

  lemma AtLeastTwice(m: nat, k: nat)
    requires k >= 2
    ensures m * k >= m + m
  {
  }

  /** The receiver's two steps for one frame, in terms of what has come so far. */
  lemma FrameTaken(start: Receiver, s: Receiver, soFar: Bytes, frame: Frame)
    requires Fresh(start) && |soFar| <= start.totalSize && s.pendingCredits < Batch(start)
    requires s == start.(receivedOffset := |soFar|, durableOffset := |soFar|, pendingCredits := s.pendingCredits)
    ensures Accepted(s, frame).Ok? <==> FrameInTurn(start, soFar, frame)
    ensures FrameInTurn(start, soFar, frame) ==>
              var end, pending := |soFar| + |frame.data|, s.pendingCredits + 1;
              var due := pending == Batch(start) || frame.endOfData;
              MadeDurable(Accepted(s, frame).value, frame.offset, |frame.data|) ==
              Ok((start.(receivedOffset := end, durableOffset := end, pendingCredits := if due then 0 else pending),
                  if due then Some(Credit(start.streamId, end, pending, 0)) else None))
  {
  }

  /** One frame: the receiver takes it and stores it if it is in turn, and only then. */
  lemma FrameStands(start: Receiver, heard: seq<Heard>, k: Kept, frame: Frame)
    requires Fresh(start) && Stands(start, heard, k)
    ensures HeededOne(k, Delivered(frame)).Some? <==> FrameInTurn(start, Joined(FramesIn(heard)), frame)
    ensures HeededOne(k, Delivered(frame)).Some? ==>
              Stands(start, heard + [Delivered(frame)], HeededOne(k, Delivered(frame)).value)
  {
    hide *;
    var soFar, chunks := Joined(FramesIn(heard)), SinceStatus(heard);
    StandsMeans(start, heard, k);
    FrameTaken(start, k.state, soFar, frame);
    HeededFrame(k, frame);
    if FrameInTurn(start, soFar, frame) {
      HeardFrame(start, heard, frame);
      DueWithBatch(start, frame, chunks);
      InTurnEnds(start, soFar, frame);
      StandsIf(start, heard + [Delivered(frame)], HeededOne(k, Delivered(frame)).value);
    }
  }

  lemma InTurnEnds(start: Receiver, soFar: Bytes, frame: Frame)
    requires FrameInTurn(start, soFar, frame)
    ensures frame.offset == |soFar| < |soFar + frame.data| <= start.totalSize
    ensures frame.endOfData <==> |soFar + frame.data| == start.totalSize
  {
  }

  lemma StandsMeans(start: Receiver, heard: seq<Heard>, k: Kept)
    requires Stands(start, heard, k)
    ensures var length := |Joined(FramesIn(heard))|;
            && k.stored == FramesIn(heard) && k.credits == CreditsDue(start, heard)
            && length <= start.totalSize && k.state.pendingCredits < Batch(start)
            && (length < start.totalSize ==> k.state.pendingCredits == SinceStatus(heard) % Batch(start))
            && k.state == start.(receivedOffset := length, durableOffset := length,
                                 pendingCredits := k.state.pendingCredits)
  {
  }

  lemma StandsIf(start: Receiver, heard: seq<Heard>, k: Kept)
    requires var length := |Joined(FramesIn(heard))|;
             && k.stored == FramesIn(heard) && k.credits == CreditsDue(start, heard)
             && length <= start.totalSize
             && k.state == start.(receivedOffset := length, durableOffset := length, pendingCredits :=
                  if length == start.totalSize then 0 else SinceStatus(heard) % Batch(start))
    ensures Stands(start, heard, k)
  {
  }

  lemma DueWithBatch(start: Receiver, frame: Frame, chunks: nat)
    ensures var pending, end := chunks % Batch(start) + 1, frame.offset + |frame.data|;
            && (chunks + 1) % Batch(start) == (if pending == Batch(start) then 0 else pending)
            && CreditDue(start, frame, chunks + 1) ==
               if pending == Batch(start) || frame.endOfData then [Credit(start.streamId, end, pending, 0)] else []
  {
    ModStep(chunks, Batch(start));
  }

  lemma HeardFrame(start: Receiver, heard: seq<Heard>, frame: Frame)
    ensures var longer := heard + [Delivered(frame)];
            && FramesIn(longer) == FramesIn(heard) + [frame]
            && Joined(FramesIn(longer)) == Joined(FramesIn(heard)) + frame.data
            && SinceStatus(longer) == SinceStatus(heard) + 1
            && CreditsDue(start, longer) == CreditsDue(start, heard) + CreditDue(start, frame, SinceStatus(heard) + 1)
  {
    assert (heard + [Delivered(frame)])[..|heard|] == heard;
    JoinedSnoc(FramesIn(heard), frame);
  }

  lemma StatusStands(start: Receiver, heard: seq<Heard>, k: Kept, status: Status)
    requires Fresh(start) && Stands(start, heard, k)
    ensures HeededOne(k, Reported(status)).Some? <==> StatusInTurn(start, Joined(FramesIn(heard)), status)
    ensures HeededOne(k, Reported(status)).Some? ==>
              Stands(start, heard + [Reported(status)], HeededOne(k, Reported(status)).value)
  {
    HeardStatus(start, heard, status);
    hide FramesIn, CreditsDue, SinceStatus, Joined, Crc32.Update, Crc32.Finished;
  }

  lemma HeardStatus(start: Receiver, heard: seq<Heard>, status: Status)
    ensures var longer := heard + [Reported(status)];
            && FramesIn(longer) == FramesIn(heard) && SinceStatus(longer) == 0
            && CreditsDue(start, longer) == CreditsDue(start, heard)
  {
    assert (heard + [Reported(status)])[..|heard|] == heard;
    assert FramesIn(heard) + [] == FramesIn(heard);
  }

  /**
   The receiver heeds everything exactly if each frame and each status is in its turn; and then its credits are
   those that fell due.
   */
  lemma {:induction false} HeededExactlyInTurn(start: Receiver, heard: seq<Heard>)
    requires Fresh(start)
    ensures Heeded(start, heard).Some? <==> AllInTurn(start, heard)
    ensures Heeded(start, heard).Some? ==> Stands(start, heard, Heeded(start, heard).value)
  {
    hide FrameInTurn, StatusInTurn, Fresh, HeededOne, Stands, AllInTurn, FramesIn;
    if heard == [] {
      assert AllInTurn(start, heard) by { NothingInTurn(start); }
      NothingStands(start);
    } else {
      var front, h := heard[..|heard| - 1], heard[|heard| - 1];
      HeededExactlyInTurn(start, front);
      assert front + [h] == heard;
      if Heeded(start, front).Some? {
        var k := Heeded(start, front).value;
        match h {
          case Delivered(frame) => FrameStands(start, front, k, frame);
          case Reported(status) => StatusStands(start, front, k, status);
        }
      }
      InTurnSnoc(start, front, h);
    }
  }

  lemma InTurnSnoc(start: Receiver, heard: seq<Heard>, h: Heard)
    ensures AllInTurn(start, heard + [h]) <==>
              AllInTurn(start, heard) && HeardInTurn(start, Joined(FramesIn(heard)), h)
  {
    hide HeardInTurn, FramesIn;
    var longer := heard + [h];
    assert longer[..|heard|] == heard;
    assert forall i :: 0 <= i < |heard| ==> heard[..i] == longer[..i] && heard[i] == longer[i];
    if AllInTurn(start, longer) {
      assert HeardInTurn(start, Joined(FramesIn(longer[..|heard|])), longer[|heard|]);
    }
  }

  lemma NothingInTurn(start: Receiver)
    ensures AllInTurn(start, [])
  {
  }

  lemma NothingStands(start: Receiver)
    requires Fresh(start)
    ensures Stands(start, [], Kept(start, [], []))
  {
    hide Batch;
    ZeroMod(Batch(start));
  }

  lemma ZeroMod(m: nat)
    requires m > 0
    ensures 0 % m == 0
  {
  }

  /** What a confirmed readback has heard, stored and credited, in terms of the opening alone. */
  lemma ConfirmedInTurn(transport: Transport, content: Bytes, requestedWindow: nat)
    requires Confirmed(transport, content, requestedWindow) && requestedWindow < U8_LIMIT
    requires transport.reply.value.totalSize < U32_LIMIT
    ensures var reply, frames := transport.reply.value, FramesIn(transport.heard);
            var start := StartFor(reply, requestedWindow).value;
            && (start.streamId, start.totalSize, start.chunkSize, start.maximumCredits)
               == (reply.streamId, reply.totalSize, reply.chunkSize, reply.initialCredits)
            && content == Joined(frames) && |content| == reply.totalSize
            && AllInTurn(start, transport.heard) && transport.credited == CreditsDue(start, transport.heard)
    ensures forall f :: f in FramesIn(transport.heard) ==>
              && f.streamId == transport.reply.value.streamId
              && 0 < |f.data| <= transport.reply.value.chunkSize
              && (f.endOfData <==> f.offset + |f.data| == |content|)
              && (!f.endOfData ==> |f.data| == transport.reply.value.chunkSize)
  {
    var start := StartFor(transport.reply.value, requestedWindow).value;
    HeededExactlyInTurn(start, transport.heard);
    FramesAreInTurn(start, transport.heard);
  }

  /** Every delivered frame, wherever it came. */
  lemma {:induction false} FramesAreInTurn(start: Receiver, heard: seq<Heard>)
    requires AllInTurn(start, heard)
    ensures forall f :: f in FramesIn(heard) ==>
              && f.streamId == start.streamId
              && 0 < |f.data| <= start.chunkSize
              && (f.endOfData <==> f.offset + |f.data| == start.totalSize)
              && (!f.endOfData ==> |f.data| == start.chunkSize)
  {
    if heard != [] {
      var front := heard[..|heard| - 1];
      assert forall i :: 0 <= i < |front| ==> front[..i] == heard[..i] && front[i] == heard[i];
      FramesAreInTurn(start, front);
    }
  }
}
