/** The two ends of the credit-window bulk transfer: the sender's state and the receiver's state. */
module BulkState {
  import opened Common

  const U8_LIMIT: nat := 0x100

  datatype Error =
    | InvalidParameters
    | WrongStream
    | NoCredit
    | EarlyShortChunk
    | LengthOverflow
    | InvalidDurableOffset
    | CreditOverflow
    | DeviceStatus(code: nat)
    | InvalidStatus
    | WrongOffset
    | InvalidEndFlag
    | InvalidDurableWrite

  datatype Direction = Upload | Readback

  datatype Grant = Grant(offset: nat, endOfData: bool)

  /** `code` 0 is the status Ok. */
  datatype Credit = Credit(streamId: nat, durableOffset: nat, credits: nat, code: nat)

  datatype Frame = Frame(streamId: nat, offset: nat, endOfData: bool, data: Bytes)

  datatype Status = Status(
    streamId: nat, direction: Direction, totalSize: nat, durableOffset: nat, availableCredits: nat,
    runningCrc: bv32)

  datatype OpenResponse = OpenResponse(
    direction: Direction, streamId: nat, totalSize: nat, durableOffset: nat, chunkSize: nat, initialCredits: nat)

  datatype FinishResponse = FinishResponse(streamId: nat, committed: bool, totalBytes: nat, crc: bv32)

  // ---- Sender ----

  datatype Sender = Sender(
    streamId: nat, totalSize: nat, chunkSize: nat, maximumCredits: nat,
    availableCredits: nat, sentOffset: nat, durableOffset: nat)

  function NewSender(streamId: nat, totalSize: nat, chunkSize: nat, maximumCredits: nat, initialCredits: nat)
    : Result<Sender, Error>
  {
    if streamId == 0 || totalSize == 0 || chunkSize == 0 || maximumCredits == 0
       || initialCredits == 0 || initialCredits > maximumCredits
    then Err(InvalidParameters)
    else Ok(Sender(streamId, totalSize, chunkSize, maximumCredits, initialCredits, 0, 0))
  }

  /** Leave to send the next `len` bytes: only the last chunk may be short. */
  function Granted(s: Sender, len: nat): Result<(Sender, Grant), Error> {
    var end := s.sentOffset + len;
    if s.availableCredits == 0 then Err(NoCredit)
    else if len == 0 || len > s.chunkSize then Err(LengthOverflow)
    else if end >= U32_LIMIT || end > s.totalSize then Err(LengthOverflow)
    else if end < s.totalSize && len != s.chunkSize then Err(EarlyShortChunk)
    else Ok((s.(sentOffset := end, availableCredits := s.availableCredits - 1),
             Grant(s.sentOffset, end == s.totalSize)))
  }

  predicate ValidDurableOffset(s: Sender, offset: nat)
    requires s.chunkSize > 0
  {
    && s.durableOffset <= offset <= s.sentOffset
    && (offset == s.totalSize || offset % s.chunkSize == 0)
  }

  function Credited(s: Sender, credit: Credit): Result<Sender, Error>
    requires s.chunkSize > 0
  {
    if credit.streamId != s.streamId then Err(WrongStream)
    else if credit.code != 0 then Err(DeviceStatus(credit.code))
    else if !ValidDurableOffset(s, credit.durableOffset) then Err(InvalidDurableOffset)
    else if s.availableCredits + credit.credits >= U8_LIMIT then Err(CreditOverflow)
    else if s.availableCredits + credit.credits > s.maximumCredits then Err(CreditOverflow)
    else Ok(s.(durableOffset := credit.durableOffset, availableCredits := s.availableCredits + credit.credits))
  }

  /** The status barrier takes the sender back to the receiver's durable offset, with a full window. */
  function Rewound(s: Sender, status: Status): Result<Sender, Error>
    requires s.chunkSize > 0
  {
    if status.streamId != s.streamId then Err(WrongStream)
    else if status.direction != Upload || status.totalSize != s.totalSize
            || status.availableCredits != s.maximumCredits || !ValidDurableOffset(s, status.durableOffset)
    then Err(InvalidStatus)
    else Ok(s.(durableOffset := status.durableOffset, sentOffset := status.durableOffset,
               availableCredits := status.availableCredits))
  }

  class BulkUploadState {
    const streamId: nat
    const totalSize: nat
    const chunkSize: nat
    const maximumCredits: nat
    var availableCredits: nat
    var sentOffset: nat
    var durableOffset: nat

    function State(): Sender
      reads this
    {
      Sender(streamId, totalSize, chunkSize, maximumCredits, availableCredits, sentOffset, durableOffset)
    }

    constructor (streamId: nat, totalSize: nat, chunkSize: nat, maximumCredits: nat, initialCredits: nat)
      requires NewSender(streamId, totalSize, chunkSize, maximumCredits, initialCredits).Ok?
      ensures NewSender(streamId, totalSize, chunkSize, maximumCredits, initialCredits) == Ok(State())
    {
      this.streamId, this.totalSize, this.chunkSize := streamId, totalSize, chunkSize;
      this.maximumCredits, availableCredits := maximumCredits, initialCredits;
      sentOffset, durableOffset := 0, 0;
    }

    method TakeGrant(len: nat) returns (r: Result<Grant, Error>)
      modifies this`sentOffset, this`availableCredits
      ensures match Granted(old(State()), len)
              case Ok((after, grant)) => r == Ok(grant) && State() == after
              case Err(e) => r == Err(e) && State() == old(State())
    {
      if availableCredits == 0 { return Err(NoCredit); }
      if len == 0 || len > chunkSize { return Err(LengthOverflow); }
      var end := sentOffset + len;
      if end >= U32_LIMIT { return Err(LengthOverflow); }
      if end > totalSize { return Err(LengthOverflow); }
      if end < totalSize && len != chunkSize { return Err(EarlyShortChunk); }
      r := Ok(Grant(sentOffset, end == totalSize));
      sentOffset := end;
      availableCredits := availableCredits - 1;
    }

    method ApplyCredit(credit: Credit) returns (error: Option<Error>)
      requires chunkSize > 0
      modifies this`durableOffset, this`availableCredits
      ensures match Credited(old(State()), credit)
              case Ok(after) => error == None && State() == after
              case Err(e) => error == Some(e) && State() == old(State())
    {
      if credit.streamId != streamId { return Some(WrongStream); }
      if credit.code != 0 { return Some(DeviceStatus(credit.code)); }
      if !ValidDurableOffset(State(), credit.durableOffset) { return Some(InvalidDurableOffset); }
      var credits := availableCredits + credit.credits;
      if credits >= U8_LIMIT || credits > maximumCredits { return Some(CreditOverflow); }
      durableOffset := credit.durableOffset;
      availableCredits := credits;
      return None;
    }

    method ApplyStatus(status: Status) returns (error: Option<Error>)
      requires chunkSize > 0
      modifies this
      ensures match Rewound(old(State()), status)
              case Ok(after) => error == None && State() == after
              case Err(e) => error == Some(e) && State() == old(State())
    {
      if status.streamId != streamId { return Some(WrongStream); }
      if status.direction != Upload || status.totalSize != totalSize
         || status.availableCredits != maximumCredits || !ValidDurableOffset(State(), status.durableOffset)
      {
        return Some(InvalidStatus);
      }
      durableOffset := status.durableOffset;
      sentOffset := status.durableOffset;
      availableCredits := status.availableCredits;
      return None;
    }
  }

  // ---- Receiver ----

  datatype Receiver = Receiver(
    streamId: nat, totalSize: nat, chunkSize: nat, maximumCredits: nat,
    creditBatch: nat, pendingCredits: nat, receivedOffset: nat, durableOffset: nat)

  function CreditBatch(maximumCredits: nat): nat {
    if maximumCredits / 2 < 1 then 1 else maximumCredits / 2
  }

  function NewReceiver(streamId: nat, totalSize: nat, chunkSize: nat, maximumCredits: nat): Result<Receiver, Error> {
    if streamId == 0 || totalSize == 0 || chunkSize == 0 || maximumCredits == 0 then Err(InvalidParameters)
    else Ok(Receiver(streamId, totalSize, chunkSize, maximumCredits, CreditBatch(maximumCredits), 0, 0, 0))
  }

  function Accepted(s: Receiver, frame: Frame): Result<Receiver, Error> {
    var len := |frame.data|;
    var end := frame.offset + len;
    if frame.streamId != s.streamId then Err(WrongStream)
    else if frame.offset != s.receivedOffset then Err(WrongOffset)
    else if len == 0 || len > s.chunkSize then Err(LengthOverflow)
    else if end >= U32_LIMIT || end > s.totalSize then Err(LengthOverflow)
    else if end < s.totalSize && len != s.chunkSize then Err(EarlyShortChunk)
    else if frame.endOfData != (end == s.totalSize) then Err(InvalidEndFlag)
    else Ok(s.(receivedOffset := end))
  }

  /** A chunk has been stored: its credit waits for a full batch, or for the end of the transfer. */
  function MadeDurable(s: Receiver, offset: nat, len: nat): Result<(Receiver, Option<Credit>), Error> {
    var end := offset + len;
    if len >= U32_LIMIT || end >= U32_LIMIT then Err(InvalidDurableWrite)
    else if offset != s.durableOffset || len == 0 || end > s.receivedOffset
            || (end < s.totalSize && len != s.chunkSize)
    then Err(InvalidDurableWrite)
    else if s.pendingCredits + 1 >= U8_LIMIT then Err(CreditOverflow)
    else
      var pending := s.pendingCredits + 1;
      if pending < s.creditBatch && end != s.totalSize then
        Ok((s.(durableOffset := end, pendingCredits := pending), None))
      else
        Ok((s.(durableOffset := end, pendingCredits := 0), Some(Credit(s.streamId, end, pending, 0))))
  }

  function Resynchronised(s: Receiver, status: Status): Result<Receiver, Error> {
    if status.streamId != s.streamId then Err(WrongStream)
    else if status.direction != Readback || status.totalSize != s.totalSize
            || status.availableCredits != s.maximumCredits || status.durableOffset != s.durableOffset
    then Err(InvalidStatus)
    else Ok(s.(receivedOffset := status.durableOffset, pendingCredits := 0))
  }

  class BulkReadbackState {
    const streamId: nat
    const totalSize: nat
    const chunkSize: nat
    const maximumCredits: nat
    const creditBatch: nat
    var pendingCredits: nat
    var receivedOffset: nat
    var durableOffset: nat

    function State(): Receiver
      reads this
    {
      Receiver(streamId, totalSize, chunkSize, maximumCredits, creditBatch,
               pendingCredits, receivedOffset, durableOffset)
    }

    constructor (streamId: nat, totalSize: nat, chunkSize: nat, maximumCredits: nat)
      requires NewReceiver(streamId, totalSize, chunkSize, maximumCredits).Ok?
      ensures NewReceiver(streamId, totalSize, chunkSize, maximumCredits) == Ok(State())
    {
      this.streamId, this.totalSize, this.chunkSize := streamId, totalSize, chunkSize;
      this.maximumCredits, creditBatch := maximumCredits, CreditBatch(maximumCredits);
      pendingCredits, receivedOffset, durableOffset := 0, 0, 0;
    }

    method Accept(frame: Frame) returns (error: Option<Error>)
      modifies this
      ensures match Accepted(old(State()), frame)
              case Ok(after) => error == None && State() == after
              case Err(e) => error == Some(e) && State() == old(State())
    {
      if frame.streamId != streamId { return Some(WrongStream); }
      if frame.offset != receivedOffset { return Some(WrongOffset); }
      var len := |frame.data|;
      if len == 0 || len > chunkSize { return Some(LengthOverflow); }
      var end := frame.offset + len;
      if end >= U32_LIMIT || end > totalSize { return Some(LengthOverflow); }
      if end < totalSize && len != chunkSize { return Some(EarlyShortChunk); }
      if frame.endOfData != (end == totalSize) { return Some(InvalidEndFlag); }
      receivedOffset := end;
      return None;
    }

    method MarkDurable(offset: nat, len: nat) returns (r: Result<Option<Credit>, Error>)
      modifies this
      ensures match MadeDurable(old(State()), offset, len)
              case Ok((after, credit)) => r == Ok(credit) && State() == after
              case Err(e) =>
                && r == Err(e)
                && (e != CreditOverflow ==> State() == old(State()))
                && (e == CreditOverflow ==> State() == old(State()).(durableOffset := offset + len))
    {
      if len >= U32_LIMIT { return Err(InvalidDurableWrite); }
      var end := offset + len;
      if end >= U32_LIMIT { return Err(InvalidDurableWrite); }
      if offset != durableOffset || len == 0 || end > receivedOffset || (end < totalSize && len != chunkSize) {
        return Err(InvalidDurableWrite);
      }
      durableOffset := end;
      if pendingCredits + 1 >= U8_LIMIT { return Err(CreditOverflow); }
      pendingCredits := pendingCredits + 1;
      if pendingCredits < creditBatch && end != totalSize { return Ok(None); }
      var credit := Credit(streamId, durableOffset, pendingCredits, 0);
      pendingCredits := 0;
      return Ok(Some(credit));
    }

    method ApplyStatus(status: Status) returns (error: Option<Error>)
      modifies this
      ensures match Resynchronised(old(State()), status)
              case Ok(after) => error == None && State() == after
              case Err(e) => error == Some(e) && State() == old(State())
    {
      if status.streamId != streamId { return Some(WrongStream); }
      if status.direction != Readback || status.totalSize != totalSize
         || status.availableCredits != maximumCredits || status.durableOffset != durableOffset
      {
        return Some(InvalidStatus);
      }
      receivedOffset := status.durableOffset;
      pendingCredits := 0;
      return None;
    }
  }
}
