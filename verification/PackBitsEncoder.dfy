/** The run encoder, and its agreement with the decoder. */
module PackBitsEncoder {
  import opened Common
  import opened PackBitsDecoder

  const MAX_RUN: nat := 128

  datatype Stretch = LiteralOf(length: nat) | RepeatOf(length: nat)

  datatype EncodeError = BufferTooSmall(required: nat, provided: nat)

  /** `n` equal bytes from `at` on. */
  predicate Uniform(s: Bytes, at: nat, n: nat) {
    && 1 <= n <= MAX_RUN && at + n <= |s|
    && forall i :: at <= i < at + n ==> s[i] == s[at]
  }

  /** Two equal bytes start at `at`. */
  predicate Pair(s: Bytes, at: nat) {
    at + 1 < |s| && s[at] == s[at + 1]
  }

  /**
   The next run from `at` on: the longest repeat if it has at least two bytes, otherwise the longest stretch in
   which no repeat starts; never more than 128 bytes.
   */
  predicate IsNextRun(s: Bytes, at: nat, run: Stretch) {
    && 1 <= run.length <= MAX_RUN && at + run.length <= |s|
    && match run
       case RepeatOf(n) => 2 <= n && Uniform(s, at, n) && (n == MAX_RUN || at + n == |s| || s[at + n] != s[at])
       case LiteralOf(n) =>
         && (forall i :: at <= i < at + n ==> !Pair(s, i))
         && (n == MAX_RUN || at + n == |s| || Pair(s, at + n))
  }

  /** The end of the repeat of `n` bytes or more that starts at `at`. */
  function RepeatFrom(s: Bytes, at: nat, n: nat): (m: nat)
    requires Uniform(s, at, n)
    ensures Uniform(s, at, m) && (m == MAX_RUN || at + m == |s| || s[at + m] != s[at])
    decreases |s| - n
  {
    if n < MAX_RUN && at + n < |s| && s[at + n] == s[at] then RepeatFrom(s, at, n + 1) else n
  }

  /** The length of the stretch of `n` bytes or more from `at` on in which no repeat starts. */
  function LiteralFrom(s: Bytes, at: nat, n: nat): (m: nat)
    requires 1 <= n <= MAX_RUN && at + n <= |s| && (forall i :: at <= i < at + n ==> !Pair(s, i))
    ensures IsNextRun(s, at, LiteralOf(m))
    decreases |s| - n
  {
    if n < MAX_RUN && at + n < |s| && !Pair(s, at + n) then LiteralFrom(s, at, n + 1) else n
  }

  function RunAt(s: Bytes, at: nat): (run: Stretch)
    requires at < |s|
    ensures IsNextRun(s, at, run)
    ensures 1 <= run.length <= MAX_RUN && at + run.length <= |s|
  {
    if Pair(s, at) then RepeatOf(RepeatFrom(s, at, 1)) else LiteralOf(LiteralFrom(s, at, 1))
  }

  /** The bytes for one run. */
  function RunCode(s: Bytes, at: nat, run: Stretch): (code: Bytes)
    requires 1 <= run.length <= MAX_RUN && at + run.length <= |s|
  {
    match run
    case LiteralOf(n) => [n - 1] + s[at..at + n]
    case RepeatOf(n) => [0x80 + (n - 1), s[at]]
  }

  /** The code for what lies from `at` on. */
  function EncodedFrom(s: Bytes, at: nat): (code: Bytes)
    decreases |s| - at
  {
    if at >= |s| then []
    else
      var run := RunAt(s, at);
      RunCode(s, at, run) + EncodedFrom(s, at + run.length)
  }

  lemma EncodedStep(s: Bytes, at: nat)
    requires at < |s|
    ensures EncodedFrom(s, at) == RunCode(s, at, RunAt(s, at)) + EncodedFrom(s, at + RunAt(s, at).length)
  {
  }

  lemma EncodedEnd(s: Bytes)
    ensures EncodedFrom(s, |s|) == []
  {
  }

  function Encoded(s: Bytes): (code: Bytes) {
    EncodedFrom(s, 0)
  }

  /** At most a third more than the input, and another byte at the most unless a repeat comes first. */
  lemma {:induction false} EncodedFromBound(s: Bytes, at: nat)
    requires at <= |s|
    ensures var n := |s| - at;
            |EncodedFrom(s, at)| <= if at < |s| && Pair(s, at) then n + n / 3 else n + (n + 2) / 3
    decreases |s| - at
  {
    if at < |s| {
      EncodedFromBound(s, at + RunAt(s, at).length);
    }
  }

  /** A code is not longer than its text by more than a third, rounded up. */
  lemma EncodedBound(s: Bytes)
    ensures |Encoded(s)| <= |s| + (|s| + 2) / 3
  {
    EncodedFromBound(s, 0);
  }

  // ---- Decoding the code ----

  /** Codes can be joined: the text of the whole is the texts joined. */
  lemma {:induction false} ExpandedJoin(s: State, x: Bytes, y: Bytes)
    requires Sensible(s) && ExpandedFrom(s, x).Some?
    ensures ExpandedFrom(s, x + y) == Then(ExpandedFrom(s, x).value, Expanded(y))
    decreases |x|, if s.Some? && s.value.Repeat? then s.value.remaining else 0
  {
    hide ExpandedFrom;
    var m := NextMove(s, x);
    if m.None? {
      ExpandedNothing(s);
      assert x + y == y;
      ThenNothing(Expanded(y));
    } else {
      var c, o := m.value.consumed, m.value.output;
      MoveExpands(s, x, m.value);
      MoveAgain(s, x, y);
      MoveExpands(s, x + y, m.value);
      assert (x + y)[c..] == x[c..] + y;
      ExpandedJoin(m.value.state, x[c..], y);
      ThenTwice(o, ExpandedFrom(m.value.state, x[c..]).value, Expanded(y));
    }
  }

  lemma ExpandedNothing(s: State)
    requires Sensible(s) && NextMove(s, []).None? && ExpandedFrom(s, []).Some?
    ensures s == None && ExpandedFrom(s, []) == Some([])
  {
  }

  lemma NothingExpands()
    ensures Expanded([]) == Some([])
  {
  }

  lemma ThenTwice(x: Bytes, y: Bytes, rest: Option<Bytes>)
    ensures Then(x, Then(y, rest)) == Then(x + y, rest)
  {
    if rest.Some? { assert x + (y + rest.value) == x + y + rest.value; }
  }

  lemma RunCodeExpands(s: Bytes, at: nat, run: Stretch)
    requires at < |s| && IsNextRun(s, at, run)
    ensures Expanded(RunCode(s, at, run)) == Some(s[at..at + run.length])
  {
    match run {
      case LiteralOf(n) => LiteralCodeExpands(s[at..at + n]);
      case RepeatOf(n) =>
        RepeatCodeExpands(s[at], n);
        assert s[at..at + n] == Fill(s[at], n);
    }
  }

  lemma LiteralCodeExpands(text: Bytes)
    requires 1 <= |text| <= MAX_RUN
    ensures Expanded([|text| - 1] + text) == Some(text)
  {
    var n := |text|;
    assert ([n - 1] + text)[1..] == text;
    assert ExpandedFrom(Some(Literal(n)), text) == Some(text) by {
      assert text[..n] == text && text[n..] == [] && text + [] == text;
      NothingExpands();
    }
  }

  lemma RepeatCodeExpands(value: Byte, n: nat)
    requires 1 <= n <= MAX_RUN
    ensures Expanded([0x80 + (n - 1), value]) == Some(Fill(value, n))
  {
    assert [0x80 + (n - 1), value][1..] == [value];
    assert ExpandedFrom(Some(RepeatValue(n)), [value]) == Some(Fill(value, n)) by {
      assert [value][1..] == [] && Fill(value, n) + [] == Fill(value, n);
      NothingExpands();
    }
  }

  lemma {:induction false} EncodedFromExpands(s: Bytes, at: nat)
    requires at <= |s|
    ensures Expanded(EncodedFrom(s, at)) == Some(s[at..])
    decreases |s| - at
  {
    hide ExpandedFrom, EncodedFrom;
    if at == |s| {
      EncodedEnd(s);
      NothingExpands();
    } else {
      hide IsNextRun, RunCode;
      var run := RunAt(s, at);
      EncodedStep(s, at);
      RunCodeExpands(s, at, run);
      ExpandedJoin(None, RunCode(s, at, run), EncodedFrom(s, at + run.length));
      EncodedFromExpands(s, at + run.length);
      assert s[at..at + run.length] + s[at + run.length..] == s[at..];
    }
  }

  /** Decoding undoes encoding, for every byte string. */
  lemma EncodedExpands(s: Bytes)
    ensures Expanded(Encoded(s)) == Some(s)
  {
    EncodedFromExpands(s, 0);
    assert s[0..] == s;
  }

  // ---- The encoder itself ----

  method RepeatLength(s: Bytes, at: nat) returns (n: nat)
    ensures at >= |s| ==> n == 0
    ensures at < |s| ==> n == RepeatFrom(s, at, 1)
  {
    if at >= |s| { return 0; }
    n := 1;
    while n < MAX_RUN && n < |s| - at && s[at + n] == s[at]
      invariant Uniform(s, at, n) && RepeatFrom(s, at, n) == RepeatFrom(s, at, 1)
    {
      n := n + 1;
    }
  }

  lemma RepeatMeansPair(s: Bytes, at: nat)
    requires at < |s|
    ensures RepeatFrom(s, at, 1) >= 2 <==> Pair(s, at)
  {
  }

  method NextRun(s: Bytes, at: nat) returns (run: Stretch)
    requires at < |s|
    ensures run == RunAt(s, at) && IsNextRun(s, at, run)
  {
    var repeats := RepeatLength(s, at);
    RepeatMeansPair(s, at);
    if repeats >= 2 { return RepeatOf(repeats); }
    var n := 1;
    while n < MAX_RUN && at + n < |s|
      invariant 1 <= n <= MAX_RUN && at + n <= |s|
      invariant forall i :: at <= i < at + n ==> !Pair(s, i)
      invariant LiteralFrom(s, at, n) == LiteralFrom(s, at, 1)
    {
      repeats := RepeatLength(s, at + n);
      RepeatMeansPair(s, at + n);
      if repeats >= 2 { break; }
      n := n + 1;
    }
    return LiteralOf(n);
  }

  /**
   The length the code will have, whatever the machine's largest `usize`: a slice is at most half as long, and for
   no such slice does the saturating addition saturate.
   */
  method EncodedLen(input: Bytes, maxUsize: nat) returns (length: nat)
    requires |input| <= maxUsize / 2
    ensures length == |Encoded(input)| <= |input| + (|input| + 2) / 3
  {
    hide EncodedFrom, IsNextRun;
    var at: nat := 0;
    length := 0;
    EncodedBound(input);
    EncodedEnd(input);
    while at < |input|
      invariant at <= |input| && length + |EncodedFrom(input, at)| == |Encoded(input)|
    {
      EncodedStep(input, at);
      var run := NextRun(input, at);
      var payload := match run case LiteralOf(n) => n case RepeatOf(_) => 1;
      length := Min(length + (1 + payload), maxUsize);
      at := at + run.length;
    }
  }

  method EncodeRuns(input: Bytes, output: array<Byte>) returns (written: nat)
    requires |Encoded(input)| <= output.Length
    modifies output
    ensures written == |Encoded(input)| && output[..written] == Encoded(input)
    ensures output[written..] == old(output[written..])
  {
    hide EncodedFrom, RunCode, IsNextRun;
    var at: nat := 0;
    written := 0;
    EncodedEnd(input);
    while at < |input|
      invariant at <= |input| && written + |EncodedFrom(input, at)| == |Encoded(input)|
      invariant output[..written] + EncodedFrom(input, at) == Encoded(input)
      invariant forall i :: written <= i < output.Length ==> output[i] == old(output[i])
    {
      EncodedStep(input, at);
      var run := NextRun(input, at);
      ghost var done, code, rest := output[..written], RunCode(input, at, run), EncodedFrom(input, at + run.length);
      assert done + (code + rest) == done + code + rest;
      var n := WriteRun(input, at, run, output, written);
      assert output[..written + n] == done + code;
      written, at := written + n, at + run.length;
    }
  }

  method WriteRun(input: Bytes, at: nat, run: Stretch, output: array<Byte>, to: nat) returns (n: nat)
    requires at < |input| && IsNextRun(input, at, run) && to + |RunCode(input, at, run)| <= output.Length
    modifies output
    ensures n == |RunCode(input, at, run)| && output[to..to + n] == RunCode(input, at, run)
    ensures forall i :: 0 <= i < output.Length && !(to <= i < to + n) ==> output[i] == old(output[i])
  {
    match run {
      case LiteralOf(m) =>
        output[to] := m - 1;
        forall i | 0 <= i < m { output[to + 1 + i] := input[at + i]; }
        n := 1 + m;
      case RepeatOf(m) =>
        output[to] := 0x80 + (m - 1);
        output[to + 1] := input[at];
        n := 2;
    }
  }

  method EncodeInto(input: Bytes, output: array<Byte>, maxUsize: nat) returns (r: Result<nat, EncodeError>)
    requires |input| <= maxUsize / 2
    modifies output
    ensures r.Ok? <==> |Encoded(input)| <= output.Length
    ensures r.Ok? ==> r.value == |Encoded(input)| && output[..] == Encoded(input) + old(output[..])[r.value..]
    ensures r.Err? ==> r.error == BufferTooSmall(|Encoded(input)|, output.Length) && output[..] == old(output[..])
  {
    var required := EncodedLen(input, maxUsize);
    if output.Length < required {
      return Err(BufferTooSmall(required, output.Length));
    }
    var written := EncodeRuns(input, output);
    assert output[..] == output[..written] + output[written..];
    assert old(output[..])[written..] == old(output[written..]);
    return Ok(written);
  }

  method Encode(input: Bytes, maxUsize: nat) returns (output: array<Byte>)
    requires |input| <= maxUsize / 2
    ensures fresh(output) && output[..] == Encoded(input)
  {
    var length := EncodedLen(input, maxUsize);
    output := new Byte[length](_ => 0);
    var written := EncodeRuns(input, output);
    assert output[..written] == output[..];
  }

  // ---- Planes ----

  datatype CompiledChunk = CompiledChunk(compressed: Bytes, rowStart: nat, rowCount: nat, uncompressedSize: nat)

  datatype ImageError = InvalidDimensions

  /** The codes of all chunks, one after the other. */
  function Joined(chunks: seq<CompiledChunk>): Bytes {
    if chunks == [] then []
    else Joined(chunks[..|chunks| - 1]) + chunks[|chunks| - 1].compressed
  }

  /** The chunk for the `i`th 16 rows of 100 bytes. */
  predicate IsChunk(plane: Bytes, i: nat, chunk: CompiledChunk) {
    && 1600 * (i + 1) <= |plane|
    && chunk == CompiledChunk(Encoded(plane[1600 * i..1600 * (i + 1)]), 16 * i, 16, 1600)
    && 16 * i < 0x1_0000
  }

  lemma {:induction false} JoinedExpands(plane: Bytes, chunks: seq<CompiledChunk>)
    requires forall i :: 0 <= i < |chunks| ==> IsChunk(plane, i, chunks[i])
    requires 1600 * |chunks| <= |plane|
    ensures Expanded(Joined(chunks)) == Some(plane[..1600 * |chunks|])
  {
    hide ExpandedFrom;
    if chunks == [] {
      NothingExpands();
    } else {
      var k := |chunks| - 1;
      JoinedExpands(plane, chunks[..k]);
      ExpandedJoin(None, Joined(chunks[..k]), chunks[k].compressed);
      EncodedExpands(plane[1600 * k..1600 * (k + 1)]);
      assert IsChunk(plane, k, chunks[k]);
      assert plane[..1600 * k] + plane[1600 * k..1600 * (k + 1)] == plane[..1600 * (k + 1)];
    }
  }

  /** Compresses a plane chunk by chunk; the codes one after the other are a code for the whole plane. */
  method CompilePlane(plane: Bytes, maxUsize: nat) returns (r: Result<seq<CompiledChunk>, ImageError>)
    requires |plane| <= maxUsize / 2
    ensures r.Ok? <==> |plane| % 1600 == 0 && |plane| / 1600 <= 4096
    ensures r.Ok? ==> |r.value| == |plane| / 1600
    ensures r.Ok? ==> forall i :: 0 <= i < |r.value| ==> IsChunk(plane, i, r.value[i])
    ensures r.Ok? ==> Expanded(Joined(r.value)) == Some(plane)
  {
    if |plane| % 1600 != 0 { return Err(InvalidDimensions); }
    var chunks: seq<CompiledChunk> := [];
    while 1600 * (|chunks| + 1) <= |plane|
      invariant 1600 * |chunks| <= |plane| && |chunks| <= 4096
      invariant forall i :: 0 <= i < |chunks| ==> IsChunk(plane, i, chunks[i])
      decreases |plane| - 1600 * |chunks|
    {
      var k := |chunks|;
      if 16 * k >= 0x1_0000 { return Err(InvalidDimensions); }
      var code := Encode(plane[1600 * k..1600 * (k + 1)], maxUsize);
      chunks := chunks + [CompiledChunk(code[..], 16 * k, 16, 1600)];
    }
    JoinedExpands(plane, chunks);
    assert plane[..1600 * |chunks|] == plane;
    return Ok(chunks);
  }

  /** What was compressed chunk by chunk, one exact decoding of everything gives back. */
  method DecodePlane(plane: Bytes, chunks: seq<CompiledChunk>, output: array<Byte>) returns (r: Result<(), DecodeError>)
    requires Expanded(Joined(chunks)) == Some(plane) && output.Length == |plane|
    modifies output
    ensures r.Ok? && output[..] == plane
  {
    r := DecodeExact(Joined(chunks), output);
    AnswerIsDecided(Joined(chunks), output.Length, output[..], r);
  }
}
