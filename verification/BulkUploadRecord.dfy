/** What may go over the line of an upload, frame by frame and answer by answer, without a sender's state. */
module BulkUploadRecord {
  import opened Common
  import opened BulkState
  import opened BulkUploadStream

  /** A sender that has sent nothing and has its whole window. */
  ghost predicate Fresh(content: Bytes, start: Sender) {
    && start.sentOffset == start.durableOffset == 0 && start.availableCredits == start.maximumCredits < U8_LIMIT
    && 0 < start.chunkSize && start.totalSize == |content| < U32_LIMIT
  }

  /** How far the source has been sent, a status taking it back to what that acknowledges. */
  function Reached(line: seq<Traffic>): nat {
    if line == [] then 0
    else
      match line[|line| - 1]
      case Sent(frame) => frame.offset + |frame.data|
      case Acknowledged(_) => Reached(line[..|line| - 1])
      case Reported(status) => status.durableOffset
  }

  function LastAcknowledged(line: seq<Traffic>): nat {
    var offsets := AcknowledgedOffsets(line);
    if offsets == [] then 0 else offsets[|offsets| - 1]
  }

  /** Chunks are acknowledged whole, never back and never ahead. */
  ghost predicate OffsetInTurn(content: Bytes, start: Sender, line: seq<Traffic>, offset: nat)
    requires start.chunkSize > 0
  {
    && LastAcknowledged(line) <= offset <= Reached(line)
    && (offset == |content| || offset % start.chunkSize == 0)
  }

  /** Frames follow each other, whole chunks but for the end of the source, while the window has room. */
  ghost predicate InTurn(content: Bytes, start: Sender, line: seq<Traffic>, t: Traffic)
    requires start.chunkSize > 0
  {
    match t
    case Sent(frame) =>
      && Honest(content, start.streamId, frame)
      && frame.offset == Reached(line)
      && |frame.data| == Min(start.chunkSize, |content| - frame.offset)
      && Outstanding(line) < start.maximumCredits
    case Acknowledged(credit) =>
      && credit.streamId == start.streamId && credit.code == 0
      && OffsetInTurn(content, start, line, credit.durableOffset)
      && credit.credits <= Outstanding(line)
    case Reported(status) =>
      && status.streamId == start.streamId && status.direction == Direction.Upload
      && status.totalSize == |content| && status.availableCredits == start.maximumCredits
      && OffsetInTurn(content, start, line, status.durableOffset)
  }

  ghost predicate AllInTurn(content: Bytes, start: Sender, line: seq<Traffic>)
    requires start.chunkSize > 0
  {
    forall i :: 0 <= i < |line| ==> InTurn(content, start, line[..i], line[i])
  }

  /** The sender as the line determines it. */
  ghost predicate Stands(content: Bytes, start: Sender, line: seq<Traffic>, s: Sender) {
    && 0 <= Outstanding(line) <= start.maximumCredits && LastAcknowledged(line) <= Reached(line) <= |content|
    && s == start.(availableCredits := start.maximumCredits - Outstanding(line), sentOffset := Reached(line),
                   durableOffset := LastAcknowledged(line))
  }

  lemma OneStands(content: Bytes, start: Sender, line: seq<Traffic>, s: Sender, t: Traffic)
    requires Fresh(content, start) && Stands(content, start, line, s)
    ensures FollowedOne(content, s, t).Some? <==> InTurn(content, start, line, t)
    ensures FollowedOne(content, s, t).Some? ==> Stands(content, start, line + [t], FollowedOne(content, s, t).value)
  {
    assert (line + [t])[..|line|] == line;
  }

  lemma InTurnSnoc(content: Bytes, start: Sender, line: seq<Traffic>, t: Traffic)
    requires start.chunkSize > 0
    ensures AllInTurn(content, start, line + [t]) <==>
              AllInTurn(content, start, line) && InTurn(content, start, line, t)
  {
    hide InTurn;
    var longer := line + [t];
    assert longer[..|line|] == line;
    assert forall i :: 0 <= i < |line| ==> line[..i] == longer[..i] && line[i] == longer[i];
    if AllInTurn(content, start, longer) {
      assert InTurn(content, start, longer[..|line|], longer[|line|]);
    }
  }

  /** The sender can follow the line exactly if each frame and each answer is in its turn. */
  lemma {:induction false} FollowedExactlyInTurn(content: Bytes, start: Sender, line: seq<Traffic>)
    requires Fresh(content, start)
    ensures Followed(content, start, line).Some? <==> AllInTurn(content, start, line)
    ensures Followed(content, start, line).Some? ==>
              Stands(content, start, line, Followed(content, start, line).value)
  {
    hide InTurn, FollowedOne, Stands, AllInTurn;
    if line == [] {
      NothingStands(content, start);
    } else {
      var front, t := line[..|line| - 1], line[|line| - 1];
      FollowedExactlyInTurn(content, start, front);
      assert front + [t] == line;
      if Followed(content, start, front).Some? {
        OneStands(content, start, front, Followed(content, start, front).value, t);
      }
      InTurnSnoc(content, start, front, t);
    }
  }

  lemma NothingStands(content: Bytes, start: Sender)
    requires Fresh(content, start)
    ensures AllInTurn(content, start, []) && Stands(content, start, [], start)
  {
  }

  /** The line of a confirmed upload, in terms of the opening alone. */
  lemma ConfirmedInTurn(transport: Transport, content: Bytes, requestedWindow: nat)
    requires Confirmed(transport, content, requestedWindow)
    requires |content| < U32_LIMIT && requestedWindow < U8_LIMIT
    ensures var reply := transport.reply.value;
            var start := StartFor(reply, |content|, requestedWindow).value;
            && (start.streamId, start.totalSize, start.chunkSize, start.maximumCredits)
               == (reply.streamId, |content|, reply.chunkSize, reply.initialCredits)
            && start.chunkSize > 0 && AllInTurn(content, start, transport.line)
            && LastAcknowledged(transport.line) == |content|
  {
    FollowedExactlyInTurn(content, StartFor(transport.reply.value, |content|, requestedWindow).value, transport.line);
  }
}
