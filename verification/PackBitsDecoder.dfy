/** The resumable decoder of the repository's run-length code, and exact-length decoding. */
module PackBitsDecoder {
  import opened Common

  datatype Run =
    | Literal(remaining: nat)
    | RepeatValue(remaining: nat)
    | Repeat(value: Byte, remaining: nat)

  type State = Option<Run>

  datatype Progress = Progress(state: State, consumed: nat, output: Bytes)

  datatype DecodeError = MalformedRun | OutputTooShort(expected: nat, actual: nat) | OutputTooLong(expected: nat)

  /** Bit 7 of a control byte selects a repeat, the other bits hold the run length less one. */
  function Control(control: Byte): Run {
    if control <= 127 then Literal(control + 1) else Repeating(control % 0x80 + 1)
  }

  function Repeating(remaining: nat): Run {
    RepeatValue(remaining)
  }

  predicate Sensible(s: State) {
    s.Some? ==> 0 < s.value.remaining <= 128
  }

  /** The state with one byte of the run less to produce. */
  function LessOne(run: Run): State
    requires run.remaining > 0
  {
    if run.remaining == 1 then None
    else
      match run
      case Literal(n) => Some(Literal(n - 1))
      case RepeatValue(n) => Some(RepeatValue(n - 1))
      case Repeat(v, n) => Some(Repeat(v, n - 1))
  }

  /** One byte taken from the input, or given to the output, or both. */
  datatype Move = Move(state: State, consumed: nat, output: Bytes)

  /** The next move; none when it needs a byte of input that is not there. */
  function NextMove(s: State, input: Bytes): (m: Option<Move>)
    requires Sensible(s)
    ensures m.Some? ==> Sensible(m.value.state) && m.value.consumed <= |input| && |m.value.output| <= 1
    ensures m.Some? ==> m.value.consumed <= 1 <= m.value.consumed + |m.value.output|
    ensures m.None? ==> input == []
  {
    match s
    case Some(Repeat(v, n)) => Some(Move(LessOne(s.value), 0, [v]))
    case None => if input == [] then None else Some(Move(Some(Control(input[0])), 1, []))
    case Some(Literal(n)) => if input == [] then None else Some(Move(LessOne(s.value), 1, [input[0]]))
    case Some(RepeatValue(n)) => if input == [] then None else Some(Move(Some(Repeat(input[0], n)), 1, []))
  }

  function Prefixed(consumed: nat, output: Bytes, rest: Progress): Progress {
    Progress(rest.state, consumed + rest.consumed, output + rest.output)
  }

  /** Reference decoding, move by move, until the room or the input is used up. */
  function Decoded(s: State, input: Bytes, room: nat): (p: Progress)
    requires Sensible(s)
    ensures Sensible(p.state) && p.consumed <= |input| && |p.output| <= room
    ensures |p.output| < room ==> p.consumed == |input| && NextMove(p.state, []).None?
    ensures |p.output| == room > 0 ==> !(p.state.Some? && p.state.value.RepeatValue?)
    decreases |input| + room
  {
    var m := NextMove(s, input);
    if room == 0 || m.None? then Progress(s, 0, [])
    else
      Prefixed(m.value.consumed, m.value.output,
               Decoded(m.value.state, input[m.value.consumed..], room - |m.value.output|))
  }

  /**
   Decoding can be stopped anywhere and taken up again: what a call left over, followed by more input and at
   least one byte of room, decodes to what one call on everything would have gone on to.
   */
  lemma {:induction false} Resumed(s: State, input: Bytes, room: nat, more: Bytes, extra: nat)
    requires Sensible(s) && extra > 0
    ensures var p := Decoded(s, input, room);
            Decoded(s, input + more, |p.output| + extra) ==
            Prefixed(p.consumed, p.output, Decoded(p.state, input[p.consumed..] + more, extra))
    decreases |input| + room
  {
    hide Decoded;
    var m := NextMove(s, input);
    if room == 0 || m.None? {
      ResumedAtOnce(s, input, room, more, extra);
    } else {
      Resumed(m.value.state, input[m.value.consumed..], room - |m.value.output|, more, extra);
      ResumedAfterMove(s, input, room, more, extra, m.value,
                       Decoded(m.value.state, input[m.value.consumed..], room - |m.value.output|));
    }
  }

  lemma ResumedAtOnce(s: State, input: Bytes, room: nat, more: Bytes, extra: nat)
    requires Sensible(s) && (room == 0 || NextMove(s, input).None?)
    ensures var p := Decoded(s, input, room);
            Decoded(s, input + more, |p.output| + extra) ==
            Prefixed(p.consumed, p.output, Decoded(p.state, input[p.consumed..] + more, extra))
  {
    hide Decoded;
    DecodedStops(s, input, room);
    assert input[0..] == input;
    PrefixedNothing(Decoded(s, input + more, extra));
  }

  lemma ResumedAfterMove(s: State, input: Bytes, room: nat, more: Bytes, extra: nat, m: Move, q: Progress)
    requires Sensible(s) && extra > 0 && room > 0 && NextMove(s, input) == Some(m)
    requires q == Decoded(m.state, input[m.consumed..], room - |m.output|)
    requires Decoded(m.state, input[m.consumed..] + more, |q.output| + extra) ==
             Prefixed(q.consumed, q.output, Decoded(q.state, input[m.consumed..][q.consumed..] + more, extra))
    ensures var p := Decoded(s, input, room);
            Decoded(s, input + more, |p.output| + extra) ==
            Prefixed(p.consumed, p.output, Decoded(p.state, input[p.consumed..] + more, extra))
  {
    hide Decoded;
    var c, o := m.consumed, m.output;
    DecodedMove(s, input, room, m);
    MoveAgain(s, input, more);
    DecodedMove(s, input + more, |o| + |q.output| + extra, m);
    assert (input + more)[c..] == input[c..] + more;
    assert input[c..][q.consumed..] == input[c + q.consumed..];
    PrefixedTwice(c, o, q.consumed, q.output, Decoded(q.state, input[c + q.consumed..] + more, extra));
  }

  lemma DecodedStops(s: State, input: Bytes, room: nat)
    requires Sensible(s) && (room == 0 || NextMove(s, input).None?)
    ensures Decoded(s, input, room) == Progress(s, 0, [])
  {
  }

  lemma DecodedMove(s: State, input: Bytes, room: nat, m: Move)
    requires Sensible(s) && room > 0 && NextMove(s, input) == Some(m)
    ensures Decoded(s, input, room) ==
            Prefixed(m.consumed, m.output, Decoded(m.state, input[m.consumed..], room - |m.output|))
  {
  }

  lemma PrefixedNothing(p: Progress)
    ensures Prefixed(0, [], p) == p
  {
    assert [] + p.output == p.output;
  }

  lemma PrefixedTwice(c: nat, x: Bytes, d: nat, y: Bytes, p: Progress)
    ensures Prefixed(c, x, Prefixed(d, y, p)) == Prefixed(c + d, x + y, p)
  {
    assert x + (y + p.output) == x + y + p.output;
  }

  lemma MoveAgain(s: State, input: Bytes, more: Bytes)
    requires Sensible(s) && NextMove(s, input).Some?
    ensures NextMove(s, input + more) == NextMove(s, input)
  {
    if input != [] { assert (input + more)[0] == input[0]; }
  }

  // ---- Feeding in pieces ----

  /** One call of the decoder: a piece of new input offered after what was left over, and room for output. */
  datatype Call = Call(piece: Bytes, room: nat)

  /** The decoder's state, the input it has not consumed, and all output so far. */
  datatype Stream = Stream(state: State, left: Bytes, output: Bytes)

  function FedOne(t: Stream, call: Call): (u: Stream)
    requires Sensible(t.state)
    ensures Sensible(u.state)
  {
    var offered := t.left + call.piece;
    var p := Decoded(t.state, offered, call.room);
    Stream(p.state, offered[p.consumed..], t.output + p.output)
  }

  function Fed(t: Stream, calls: seq<Call>): (u: Stream)
    requires Sensible(t.state)
    ensures Sensible(u.state)
  {
    if calls == [] then t else FedOne(Fed(t, calls[..|calls| - 1]), calls[|calls| - 1])
  }

  function AllInput(calls: seq<Call>): Bytes {
    if calls == [] then [] else AllInput(calls[..|calls| - 1]) + calls[|calls| - 1].piece
  }

  /** `t` has come from `s` over `input`: it goes on exactly as one call on all the input would. */
  ghost predicate Stands(s: State, input: Bytes, t: Stream)
    requires Sensible(s) && Sensible(t.state)
  {
    forall more: Bytes, extra: nat :: extra > 0 ==> GoesOn(s, input, t, more, extra)
  }

  ghost predicate GoesOn(s: State, input: Bytes, t: Stream, more: Bytes, extra: nat)
    requires Sensible(s) && Sensible(t.state)
  {
    var whole, next := Decoded(s, input + more, |t.output| + extra), Decoded(t.state, t.left + more, extra);
    && whole.state == next.state
    && whole.output == t.output + next.output
    && |input| + |more| - whole.consumed == |t.left| + |more| - next.consumed
  }

  lemma FedOneStands(s: State, input: Bytes, t: Stream, call: Call)
    requires Sensible(s) && Sensible(t.state) && Stands(s, input, t)
    ensures Stands(s, input + call.piece, FedOne(t, call))
  {
    hide Decoded;
    var offered := t.left + call.piece;
    var p := Decoded(t.state, offered, call.room);
    var u := FedOne(t, call);
    forall more: Bytes, extra: nat | extra > 0
      ensures GoesOn(s, input + call.piece, u, more, extra)
    {
      Resumed(t.state, offered, call.room, more, extra);
      assert GoesOn(s, input, t, call.piece + more, |p.output| + extra);
      assert t.left + (call.piece + more) == offered + more;
      assert input + (call.piece + more) == input + call.piece + more;
      assert |u.output| + extra == |t.output| + (|p.output| + extra);
    }
  }

  /**
   Any partition of the input over any sequence of output buffers, unconsumed bytes offered again each time,
   is as good as one call: whatever input comes next, the same bytes and the same state follow.
   */
  lemma {:induction false} SplitInvariance(calls: seq<Call>)
    ensures Stands(None, AllInput(calls), Fed(Stream(None, [], []), calls))
  {
    if calls == [] {
      forall more: Bytes, extra: nat | extra > 0
        ensures GoesOn(None, [], Stream(None, [], []), more, extra)
      {
        assert [] + more == more;
      }
    } else {
      var n := |calls| - 1;
      SplitInvariance(calls[..n]);
      FedOneStands(None, AllInput(calls[..n]), Fed(Stream(None, [], []), calls[..n]), calls[n]);
    }
  }

  // ---- Whole codes ----

  function Fill(value: Byte, n: nat): Bytes {
    seq(n, _ => value)
  }

  /**
   The text of the code that follows state `s`: the rest of the run `s` is in, then complete runs. `None` when
   the last run is cut short.
   */
  function ExpandedFrom(s: State, input: Bytes): (text: Option<Bytes>)
    requires Sensible(s)
    decreases |input|, if s.Some? then 1 else 0
  {
    match s
    case None =>
      if input == [] then Some([]) else ExpandedFrom(Some(Control(input[0])), input[1..])
    case Some(Literal(n)) =>
      if |input| < n then None else Then(input[..n], ExpandedFrom(None, input[n..]))
    case Some(RepeatValue(n)) =>
      if input == [] then None else Then(Fill(input[0], n), ExpandedFrom(None, input[1..]))
    case Some(Repeat(v, n)) =>
      Then(Fill(v, n), ExpandedFrom(None, input))
  }

  function Then(head: Bytes, rest: Option<Bytes>): Option<Bytes> {
    match rest
    case None => None
    case Some(text) => Some(head + text)
  }

  /** The text of a whole code. */
  function Expanded(input: Bytes): Option<Bytes> {
    ExpandedFrom(None, input)
  }

  /** A move takes the head off the text and leaves the rest of the code for it. */
  lemma MoveExpands(s: State, input: Bytes, m: Move)
    requires Sensible(s) && NextMove(s, input) == Some(m)
    ensures var after := ExpandedFrom(m.state, input[m.consumed..]);
            ExpandedFrom(s, input) == Then(m.output, after)
  {
    match s {
      case None => ThenNothing(ExpandedFrom(m.state, input[1..]));
      case Some(Literal(n)) => LiteralMoveExpands(input, n);
      case Some(RepeatValue(n)) => ThenNothing(ExpandedFrom(m.state, input[1..]));
      case Some(Repeat(v, n)) => RepeatMoveExpands(input, v, n);
    }
  }

  lemma ThenNothing(rest: Option<Bytes>)
    ensures Then([], rest) == rest
  {
    if rest.Some? { assert [] + rest.value == rest.value; }
  }

  lemma LiteralMoveExpands(input: Bytes, n: nat)
    requires 0 < n <= 128 && input != []
    ensures ExpandedFrom(Some(Literal(n)), input)
         == Then([input[0]], ExpandedFrom(LessOne(Literal(n)), input[1..]))
  {
    if n == 1 {
      assert [input[0]] == input[..1];
    } else if |input| >= n {
      var rest := ExpandedFrom(None, input[n..]);
      assert input[1..][n - 1..] == input[n..];
      if rest.Some? {
        assert input[..n] + rest.value == [input[0]] + (input[1..][..n - 1] + rest.value);
      }
    }
  }

  lemma RepeatMoveExpands(input: Bytes, v: Byte, n: nat)
    requires 0 < n <= 128
    ensures ExpandedFrom(Some(Repeat(v, n)), input)
         == Then([v], ExpandedFrom(LessOne(Repeat(v, n)), input[0..]))
  {
    assert input[0..] == input;
    var rest := ExpandedFrom(None, input);
    if n == 1 {
      assert Fill(v, 1) == [v];
    } else if rest.Some? {
      assert Fill(v, n) + rest.value == [v] + (Fill(v, n - 1) + rest.value);
    }
  }

  /** Decoding with room for the whole text ends idle, at the end of the code, with exactly the text. */
  lemma {:induction false} ExpandedIsDecoded(s: State, input: Bytes)
    requires Sensible(s) && ExpandedFrom(s, input).Some?
    ensures var text := ExpandedFrom(s, input).value;
            text != [] || (s.None? && input == [])
    ensures var text := ExpandedFrom(s, input).value;
            forall room :: room >= |text| > 0 ==> Decoded(s, input, room) == Progress(None, |input|, text)
    decreases |input|, if s.Some? && s.value.Repeat? then s.value.remaining else 0
  {
    var text := ExpandedFrom(s, input).value;
    var m := NextMove(s, input);
    if m.None? {
      assert input == [];
    } else {
      MoveExpands(s, input, m.value);
      ExpandedIsDecoded(m.value.state, input[m.value.consumed..]);
      var rest := ExpandedFrom(m.value.state, input[m.value.consumed..]).value;
      forall room | room >= |text| > 0
        ensures Decoded(s, input, room) == Progress(None, |input|, text)
      {
        DecodedMove(s, input, room, m.value);
        if rest == [] {
          DecodedStops(m.value.state, input[m.value.consumed..], room - |m.value.output|);
        }
      }
    }
  }

  /** Decoding that ends idle at the end of the code has produced its text. */
  lemma {:induction false} DecodedIsExpanded(s: State, input: Bytes, room: nat)
    requires Sensible(s)
    requires Decoded(s, input, room).state.None? && Decoded(s, input, room).consumed == |input|
    ensures ExpandedFrom(s, input) == Some(Decoded(s, input, room).output)
    decreases |input| + room
  {
    var m := NextMove(s, input);
    if room == 0 || m.None? {
      DecodedStops(s, input, room);
    } else {
      DecodedMove(s, input, room, m.value);
      MoveExpands(s, input, m.value);
      DecodedIsExpanded(m.value.state, input[m.value.consumed..], room - |m.value.output|);
    }
  }

  /** Decoding that ends inside a run with no input left shows the code to be cut short. */
  lemma {:induction false} CutShort(s: State, input: Bytes, room: nat)
    requires Sensible(s)
    requires var p := Decoded(s, input, room);
             p.consumed == |input| && p.state.Some? && NextMove(p.state, []).None?
    ensures ExpandedFrom(s, input).None?
    decreases |input| + room
  {
    var m := NextMove(s, input);
    if room == 0 || m.None? {
      DecodedStops(s, input, room);
    } else {
      DecodedMove(s, input, room, m.value);
      MoveExpands(s, input, m.value);
      CutShort(m.value.state, input[m.value.consumed..], room - |m.value.output|);
    }
  }

  // ---- Exact-length decoding ----

  /** What decoding `input` into a buffer of `size` bytes has to answer, `output` being the buffer's content. */
  ghost predicate Answers(input: Bytes, size: nat, output: Bytes, r: Result<(), DecodeError>) {
    match r
    case Ok(_) => Expanded(input) == Some(output) && |output| == size
    case Err(OutputTooShort(expected, actual)) =>
      expected == size && actual < size && actual <= |output| && Expanded(input) == Some(output[..actual])
    case Err(OutputTooLong(expected)) => expected == size && GoesBeyond(input, size)
    case Err(MalformedRun) => Expanded(input).None? && !GoesBeyond(input, size)
  }

  /** There is output beyond the first `size` bytes. */
  ghost predicate GoesBeyond(input: Bytes, size: nat) {
    |Decoded(None, input, size + 1).output| > size
  }

  /** The answer is decided by the code alone: success exactly for a whole code of the right length. */
  lemma AnswerIsDecided(input: Bytes, size: nat, output: Bytes, r: Result<(), DecodeError>)
    requires Answers(input, size, output, r)
    ensures r.Ok? <==> Expanded(input).Some? && |Expanded(input).value| == size
    ensures r.Err? && r.error.OutputTooShort? <==> Expanded(input).Some? && |Expanded(input).value| < size
    ensures r.Err? && r.error.OutputTooLong? <==> GoesBeyond(input, size)
    ensures Expanded(input).Some? ==> (GoesBeyond(input, size) <==> |Expanded(input).value| > size)
  {
    hide Decoded;
    if Expanded(input).Some? {
      var text := Expanded(input).value;
      ExpandedIsDecoded(None, input);
      if text == [] {
        DecodedStops(None, input, size + 1);
      }
    }
  }

  /** A decoding that did not fill the buffer. */
  lemma EndsShort(input: Bytes, size: nat, p: Progress)
    requires p == Decoded(None, input, size) && |p.output| < size
    ensures !GoesBeyond(input, size)
    ensures Expanded(input) == if p.state.None? then Some(p.output) else None
  {
    hide Decoded;
    Resumed(None, input, size, [], size + 1 - |p.output|);
    assert input + [] == input && input[p.consumed..] + [] == [];
    DecodedStops(p.state, [], size + 1 - |p.output|);
    if p.state.None? { DecodedIsExpanded(None, input, size); } else { CutShort(None, input, size); }
  }

  /** A decoding that filled the buffer, and what one more byte of room shows. */
  lemma EndsFull(input: Bytes, size: nat, p: Progress)
    requires p == Decoded(None, input, size) && |p.output| == size
    ensures var probe := Decoded(p.state, input[p.consumed..], 1);
            && (GoesBeyond(input, size) <==> probe.output != [])
            && (probe.output == [] && probe.state.Some? ==> Expanded(input).None?)
            && (probe.output == [] && probe.state.None? ==> Expanded(input) == Some(p.output) && p.consumed == |input|)
  {
    hide Decoded;
    var rest := input[p.consumed..];
    var probe := Decoded(p.state, rest, 1);
    Resumed(None, input, size, [], 1);
    assert input + [] == input && rest + [] == rest && p.output + [] == p.output;
    if probe.output == [] {
      if probe.state.Some? {
        CutShort(None, input, size + 1);
      } else {
        DecodedIsExpanded(None, input, size + 1);
        DecodedIsExpanded(p.state, rest, 1);
        ExpandedIsDecoded(p.state, rest);
      }
    }
  }

  // ---- The decoder itself, which copies whole stretches ----

  function WithRemaining(run: Run, n: nat): State {
    if n == 0 then None
    else
      match run
      case Literal(_) => Some(Literal(n))
      case RepeatValue(_) => Some(RepeatValue(n))
      case Repeat(v, _) => Some(Repeat(v, n))
  }

  lemma {:induction false} LiteralStretch(n: nat, input: Bytes, room: nat, count: nat)
    requires 0 < n <= 128 && count <= n && count <= |input| && count <= room
    ensures Decoded(Some(Literal(n)), input, room)
         == Prefixed(count, input[..count], Decoded(WithRemaining(Literal(n), n - count), input[count..], room - count))
  {
    hide Decoded;
    if count == 0 {
      assert input[0..] == input && input[..0] == [];
      PrefixedNothing(Decoded(Some(Literal(n)), input, room));
    } else {
      DecodedMove(Some(Literal(n)), input, room, Move(LessOne(Literal(n)), 1, [input[0]]));
      if n == 1 {
        assert input[..1] == [input[0]];
      } else {
        LiteralStretch(n - 1, input[1..], room - 1, count - 1);
        TailOfTail(input, 1, count - 1);
        assert [input[0]] + input[1..][..count - 1] == input[..count];
        PrefixedTwice(1, [input[0]], count - 1, input[1..][..count - 1],
                      Decoded(WithRemaining(Literal(n), n - count), input[count..], room - count));
      }
    }
  }

  lemma {:induction false} RepeatStretch(v: Byte, n: nat, input: Bytes, room: nat, count: nat)
    requires 0 < n <= 128 && count <= n && count <= room
    ensures Decoded(Some(Repeat(v, n)), input, room)
         == Prefixed(0, Fill(v, count), Decoded(WithRemaining(Repeat(v, n), n - count), input, room - count))
  {
    hide Decoded;
    if count == 0 {
      PrefixedNothing(Decoded(Some(Repeat(v, n)), input, room));
      assert Fill(v, 0) == [];
    } else {
      DecodedMove(Some(Repeat(v, n)), input, room, Move(LessOne(Repeat(v, n)), 0, [v]));
      assert input[0..] == input;
      if n == 1 {
        assert Fill(v, 1) == [v];
      } else {
        RepeatStretch(v, n - 1, input, room - 1, count - 1);
        assert [v] + Fill(v, count - 1) == Fill(v, count);
        PrefixedTwice(0, [v], 0, Fill(v, count - 1),
            Decoded(WithRemaining(Repeat(v, n), n - count), input, room - count));
      }
    }
  }

  /** Part of a decoding is done: what the reference still has to do is `rest`, with room for `left`. */
  ghost predicate Reached(whole: Progress, run: State, rest: Bytes, left: nat, consumed: nat, written: Bytes)
    requires Sensible(run)
  {
    whole == Prefixed(consumed, written, Decoded(run, rest, left))
  }

  lemma ReachedStart(s: State, input: Bytes, room: nat)
    requires Sensible(s)
    ensures Reached(Decoded(s, input, room), s, input, room, 0, [])
  {
    hide Decoded;
    PrefixedNothing(Decoded(s, input, room));
  }

  lemma ReachedStretch(whole: Progress, run: State, rest: Bytes, left: nat, consumed: nat, written: Bytes,
                       c: nat, piece: Bytes, next: State, rest': Bytes, left': nat)
    requires Sensible(run) && Sensible(next) && Reached(whole, run, rest, left, consumed, written)
    requires Decoded(run, rest, left) == Prefixed(c, piece, Decoded(next, rest', left'))
    ensures Reached(whole, next, rest', left', consumed + c, written + piece)
  {
    hide Decoded;
    PrefixedTwice(consumed, written, c, piece, Decoded(next, rest', left'));
  }

  lemma ReachedMove(whole: Progress, run: State, rest: Bytes, left: nat, consumed: nat, written: Bytes)
    requires Sensible(run) && Reached(whole, run, rest, left, consumed, written)
    requires rest != [] && left > 0 && (run.None? || run.value.RepeatValue?)
    ensures var next := if run.None? then Some(Control(rest[0])) else Some(Repeat(rest[0], run.value.remaining));
            Reached(whole, next, rest[1..], left, consumed + 1, written)
  {
    hide Decoded;
    var next := if run.None? then Some(Control(rest[0])) else Some(Repeat(rest[0], run.value.remaining));
    DecodedMove(run, rest, left, Move(next, 1, []));
    ReachedStretch(whole, run, rest, left, consumed, written, 1, [], next, rest[1..], left);
    assert written + [] == written;
  }

  lemma ReachedEnd(whole: Progress, run: State, rest: Bytes, left: nat, consumed: nat, written: Bytes)
    requires Sensible(run) && Reached(whole, run, rest, left, consumed, written)
    requires left == 0 || (rest == [] && !(run.Some? && run.value.Repeat?))
    ensures whole == Progress(run, consumed, written)
  {
    hide Decoded;
    DecodedStops(run, rest, left);
    assert written + [] == written;
  }

  class Decoder {
    var run: State

    ghost predicate Valid()
      reads this
    {
      Sensible(run)
    }

    constructor ()
      ensures Valid() && run == None
    {
      run := None;
    }

    /** One run, or as much of it as input and room allow, from `at` on in the output. */
    method CopyStretch(input: Bytes, output: array<Byte>, at: nat, to: nat) returns (consumed: nat, produced: nat)
      requires Valid() && run.Some? && !run.value.RepeatValue? && at < to <= output.Length
      requires input != [] || run.value.Repeat?
      modifies this, output
      ensures Valid() && consumed <= |input| && 0 < produced <= to - at
      ensures Decoded(old(run), input, to - at)
           == Prefixed(consumed, output[at..at + produced], Decoded(run, input[consumed..], to - at - produced))
      ensures forall i :: 0 <= i < output.Length && !(at <= i < at + produced) ==> output[i] == old(output[i])
    {
      hide Decoded;
      match run.value {
        case Literal(remaining) =>
          var count := Min(Min(remaining, |input|), to - at);
          LiteralStretch(remaining, input, to - at, count);
          forall i | 0 <= i < count { output[at + i] := input[i]; }
          assert output[at..at + count] == input[..count];
          consumed, produced := count, count;
          run := WithRemaining(run.value, remaining - count);
        case Repeat(value, remaining) =>
          var count := Min(remaining, to - at);
          RepeatStretch(value, remaining, input, to - at, count);
          forall i | 0 <= i < count { output[at + i] := value; }
          assert output[at..at + count] == Fill(value, count);
          assert input[0..] == input;
          consumed, produced := 0, count;
          run := WithRemaining(run.value, remaining - count);
      }
    }

    /** Decodes into `output[from..to]` until that room or the input is used up, exactly as the reference does. */
    method Decode(input: Bytes, output: array<Byte>, from: nat, to: nat) returns (consumed: nat, produced: nat)
      requires Valid() && from <= to <= output.Length
      modifies this, output
      ensures Valid() && consumed <= |input| && from + produced <= to
      ensures Decoded(old(run), input, to - from) == Progress(run, consumed, output[from..from + produced])
      ensures forall i :: 0 <= i < output.Length && !(from <= i < from + produced) ==> output[i] == old(output[i])
    {
      hide Decoded, Reached, Prefixed, NextMove;
      consumed, produced := 0, 0;
      ghost var rest, written: Bytes := input, [];
      ghost var whole := Decoded(run, input, to - from);
      ReachedStart(run, input, to - from);
      while from + produced < to && (consumed < |input| || (run.Some? && run.value.Repeat?))
        invariant Valid() && consumed <= |input| && from + produced <= to
        invariant rest == input[consumed..] && written == output[from..from + produced]
        invariant Reached(whole, run, rest, to - from - produced, consumed, written)
        invariant forall i :: 0 <= i < output.Length && !(from <= i < from + produced) ==> output[i] == old(output[i])
        decreases |input| - consumed + (to - from - produced)
      {
        if run.None? || run.value.RepeatValue? {
          ReachedMove(whole, run, rest, to - from - produced, consumed, written);
          TailOfTail(input, consumed, 1);
          run := if run.None? then Some(Control(input[consumed]))
              else Some(Repeat(input[consumed], run.value.remaining));
          consumed, rest := consumed + 1, rest[1..];
        } else {
          ghost var before, left := run, to - from - produced;
          var c, n := CopyStretch(input[consumed..], output, from + produced, to);
          ghost var piece := output[from + produced..from + produced + n];
          ReachedStretch(whole, before, rest, left, consumed, written, c, piece, run, rest[c..], left - n);
          TailOfTail(input, consumed, c);
          assert output[from..from + produced] == written;
          consumed, produced, rest, written := consumed + c, produced + n, rest[c..], written + piece;
          assert written == output[from..from + produced];
        }
      }
      ReachedEnd(whole, run, rest, to - from - produced, consumed, written);
    }

    /** Only between runs may the input end. */
    method Finish() returns (ok: bool)
      ensures ok <==> run == None
    {
      ok := run.None?;
    }
  }

  /** Decodes a whole code whose text has exactly the buffer's length. */
  method DecodeExact(input: Bytes, output: array<Byte>) returns (r: Result<(), DecodeError>)
    modifies output
    ensures Answers(input, output.Length, output[..], r)
  {
    hide Decoded, Expanded;
    var decoder := new Decoder();
    var consumed: nat, produced: nat := 0, 0;
    ghost var whole, started := Decoded(None, input, output.Length), false;
    while produced < output.Length
      invariant decoder.Valid() && fresh(decoder)
      invariant consumed <= |input| && produced <= output.Length
      invariant started ==> whole == Progress(decoder.run, consumed, output[..produced])
      invariant !started ==> decoder.run.None? && consumed == produced == 0
      decreases |input| - consumed + (output.Length - produced)
    {
      ghost var before := decoder.run;
      var c, n := decoder.Decode(input[consumed..], output, produced, output.Length);
      if started {
        DecodedStops(before, [], output.Length - produced);
      }
      assert input[0..] == input;
      started := true;
      consumed, produced := consumed + c, produced + n;
      if c == 0 && n == 0 { break; }
    }
    if output.Length == 0 { DecodedStops(None, input, 0); }
    assert whole == Progress(decoder.run, consumed, output[..produced]);
    if produced < output.Length {
      EndsShort(input, output.Length, whole);
      var ended := decoder.Finish();
      return Err(if ended then OutputTooShort(output.Length, produced) else MalformedRun);
    }
    assert output[..produced] == output[..];
    EndsFull(input, output.Length, whole);
    if decoder.run.Some? {
      ProbeInsideRun(decoder.run, input[consumed..]);
      return Err(if decoder.run.value.Repeat? || (decoder.run.value.Literal? && consumed < |input|)
                 then OutputTooLong(output.Length) else MalformedRun);
    }
    if consumed < |input| {
      var probe := new Byte[1];
      var _, n := decoder.Decode(input[consumed..], probe, 0, 1);
      if n > 0 { return Err(OutputTooLong(output.Length)); }
      var ended := decoder.Finish();
      if !ended { return Err(MalformedRun); }
    } else {
      DecodedStops(None, [], 1);
    }
    return Ok(());
  }

  lemma ProbeInsideRun(s: State, rest: Bytes)
    requires Sensible(s) && s.Some? && (s.value.RepeatValue? ==> rest == [])
    ensures Decoded(s, rest, 1).output != [] <==> s.value.Repeat? || (s.value.Literal? && rest != [])
    ensures Decoded(s, rest, 1).output == [] ==> Decoded(s, rest, 1).state.Some?
  {
    hide Decoded;
    var m := NextMove(s, rest);
    if m.None? {
      DecodedStops(s, rest, 1);
    } else {
      DecodedMove(s, rest, 1, m.value);
    }
  }
}
