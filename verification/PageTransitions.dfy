/** Transitions between neighbouring pages: which base-plane chunks change. */
module PageTransitions {
  import opened Common
  import opened Bits
  import opened PageRecords
  import opened PackBitsEncoder
  import opened PageIndices
  import opened PageValidation

  // ---- What changes between two pages ----

  /** The chunks of the first plane in slot 2. */
  function BaseChunks(planes: seq<CompiledPlane>): seq<CompiledChunk> {
    if planes == [] then []
    else if planes[0].slot == 2 then planes[0].chunks
    else BaseChunks(planes[1..])
  }

  function Compared(from: seq<CompiledChunk>, to: seq<CompiledChunk>): nat {
    Min(Min(|from|, |to|), 32)
  }

  /** Chunk `i` is among those compared and has other bytes. */
  predicate Differs(from: seq<CompiledChunk>, to: seq<CompiledChunk>, i: nat) {
    i < Compared(from, to) && from[i].compressed != to[i].compressed
  }

  datatype Change = Change(mask: nat, first: nat, count: nat)

  /** The mask has the bits of the differing chunks; first and count are the smallest span around them. */
  ghost predicate Describes(change: Change, from: seq<CompiledChunk>, to: seq<CompiledChunk>) {
    && change.mask < U32_LIMIT
    && (forall i: nat :: Bit(change.mask, i) <==> Differs(from, to, i))
    && (change.mask == 0 <==> change.count == 0) && (change.mask == 0 ==> change.first == 0)
    && (change.count > 0 ==> Differs(from, to, change.first) && Differs(from, to, change.first + change.count - 1))
    && forall i: nat :: Differs(from, to, i) ==> change.first <= i < change.first + change.count
  }

  method ChangedChunks(from: CompiledPage, to: CompiledPage) returns (change: Change)
    ensures Describes(change, BaseChunks(from.planes), BaseChunks(to.planes))
    ensures change.mask != 0 ==>
              change.first == TrailingZeros(change.mask)
              && change.count == HighestBit(change.mask) - TrailingZeros(change.mask) + 1
  {
    var fromChunks, toChunks := BaseChunks(from.planes), BaseChunks(to.planes);
    var mask: nat := 0;
    forall i: nat
      ensures !Bit(0, i)
    {
      NoBits(i);
    }
    for index := 0 to Compared(fromChunks, toChunks)
      invariant mask < Power(32)
      invariant forall i: nat :: Bit(mask, i) <==> i < index && Differs(fromChunks, toChunks, i)
    {
      if fromChunks[index].compressed != toChunks[index].compressed {
        forall i: nat
          ensures Bit(SetBit(mask, index), i) <==> i == index || Bit(mask, i)
        {
          SetBitSets(mask, index, i);
        }
        BitsStayBelow(mask, index, 32);
        mask := SetBit(mask, index);
      }
    }
    Powers();
    if mask == 0 {
      return Change(0, 0, 0);
    }
    var first, last := TrailingZeros(mask), HighestBit(mask);
    return Change(mask, first, last - first + 1);
  }

  function Codes(chunks: seq<CompiledChunk>): (codes: seq<Bytes>)
    ensures |codes| == |chunks| && forall i :: 0 <= i < |codes| ==> codes[i] == chunks[i].compressed
  {
    seq(|chunks|, i requires 0 <= i < |chunks| => chunks[i].compressed)
  }

  /** Drawing the span's chunks of the new page over the old page gives the new page. */
  lemma SpanIsEnough(change: Change, from: seq<CompiledChunk>, to: seq<CompiledChunk>)
    requires Describes(change, from, to) && |from| == |to| <= 32
    ensures change.first + change.count <= |to|
    ensures Codes(from)[..change.first] + Codes(to)[change.first..change.first + change.count]
            + Codes(from)[change.first + change.count..] == Codes(to)
  {
    forall i | 0 <= i < |to| && !(change.first <= i < change.first + change.count)
      ensures Codes(from)[i] == Codes(to)[i]
    {
      assert !Differs(from, to, i);
    }
  }

  // ---- The records ----

  /** The record at `i`: forward from page `i / 2` for even `i`, back to it for odd. */
  predicate IsTransition(pages: seq<CompiledPage>, i: nat, r: TransitionRecord)
    requires i / 2 + 1 < |pages|
  {
    && (if i % 2 == 0 then r.from == i / 2 && r.to == i / 2 + 1 else r.from == i / 2 + 1 && r.to == i / 2)
  }

  ghost predicate TransitionStands(pages: seq<CompiledPage>, i: nat, r: TransitionRecord)
    requires i / 2 + 1 < |pages|
  {
    && IsTransition(pages, i, r)
    && Describes(Change(r.mask, r.first, r.count), BaseChunks(pages[r.from].planes), BaseChunks(pages[r.to].planes))
    && (r.mask != 0 ==> r.first == TrailingZeros(r.mask) && r.count == HighestBit(r.mask) - r.first + 1)
  }

  function TransitionIndex(recs: seq<TransitionRecord>): (index: Bytes)
    ensures |index| == 24 * |recs|
  {
    if recs == [] then [] else TransitionIndex(recs[..|recs| - 1]) + TransitionBytes(recs[|recs| - 1])
  }

  lemma TransitionIndexSnoc(recs: seq<TransitionRecord>, r: TransitionRecord)
    ensures TransitionIndex(recs + [r]) == TransitionIndex(recs) + TransitionBytes(r)
  {
    hide TransitionBytes;
    assert (recs + [r])[..|recs|] == recs;
  }

  /** Two records for each pair of neighbours, one each way. */
  ghost predicate IsTransitionIndex(pages: seq<CompiledPage>, recs: seq<TransitionRecord>, index: Bytes)
    requires pages != []
  {
    && index == TransitionIndex(recs) && |recs| == 2 * (|pages| - 1)
    && forall i :: 0 <= i < |recs| ==> TransitionStands(pages, i, recs[i])
  }

  method BuildTransitions(pages: seq<CompiledPage>) returns (output: Bytes)
    requires pages != []
    ensures |output| == 24 * 2 * (|pages| - 1)
    ensures exists recs: seq<TransitionRecord> :: IsTransitionIndex(pages, recs, output)
  {
    hide TransitionBytes, TransitionIndex, Describes;
    output := [];
    ghost var recs: seq<TransitionRecord> := [];
    NoTransitions();
    for index := 0 to |pages| - 1
      invariant output == TransitionIndex(recs) && |recs| == 2 * index
      invariant forall i :: 0 <= i < |recs| ==> TransitionStands(pages, i, recs[i])
    {
      for back := 0 to 2
        invariant output == TransitionIndex(recs) && |recs| == 2 * index + back
        invariant forall i :: 0 <= i < |recs| ==> TransitionStands(pages, i, recs[i])
      {
        var from, to := index + back, index + 1 - back;
        var change := ChangedChunks(pages[from], pages[to]);
        var record := TransitionRecord(from, to, change.mask, change.first, change.count);
        assert TransitionStands(pages, |recs|, record);
        TransitionIndexSnoc(recs, record);
        output, recs := output + TransitionBytes(record), recs + [record];
      }
    }
    assert IsTransitionIndex(pages, recs, output);
  }

  lemma NoTransitions()
    ensures TransitionIndex([]) == []
  {
  }

  // ---- The validator's pass ----

  predicate TransitionOk(record: Bytes, pageCount: nat) {
    var parsed := ParseTransition(record, pageCount);
    && parsed.Some?
    && (parsed.value.mask != 0 ==>
          parsed.value.first == TrailingZeros(parsed.value.mask)
          && parsed.value.count == HighestBit(parsed.value.mask) - parsed.value.first + 1)
  }

  function TransitionsFound(index: Bytes, n: nat, pageCount: nat): seq<Finding>
    requires 24 * n <= |index|
  {
    if n == 0 then []
    else
      TransitionsFound(index, n - 1, pageCount)
      + Report(!TransitionOk(ShortRecordAt(index, n - 1), pageCount), TransitionCode, n - 1)
  }

  method ValidateTransitions(index: Bytes, n: nat, pageCount: nat) returns (found: seq<Finding>)
    requires |index| == 24 * n
    ensures found == TransitionsFound(index, n, pageCount)
  {
    hide ParseTransition;
    found := [];
    for raw := 0 to n
      invariant found == TransitionsFound(index, raw, pageCount)
    {
      var parsed := ParseTransition(ShortRecordAt(index, raw), pageCount);
      var invalid := parsed.None?;
      if parsed.Some? {
        var mask := parsed.value.mask;
        if mask != 0 {
          var first, last := TrailingZeros(mask), HighestBit(mask);
          invalid := invalid || parsed.value.first != first || parsed.value.count != last - first + 1;
        }
      }
      if invalid { found := found + [Finding(TransitionCode, raw)]; }
    }
  }

  lemma {:induction false} TransitionIndexAt(recs: seq<TransitionRecord>, i: nat)
    requires i < |recs|
    ensures ShortRecordAt(TransitionIndex(recs), i) == TransitionBytes(recs[i])
  {
    hide TransitionBytes;
    if i < |recs| - 1 { TransitionIndexAt(recs[..|recs| - 1], i); }
  }

  lemma TransitionPasses(pages: seq<CompiledPage>, i: nat, r: TransitionRecord)
    requires i / 2 + 1 < |pages| <= U32_LIMIT && TransitionStands(pages, i, r)
    ensures TransitionOk(TransitionBytes(r), |pages|)
  {
    hide ParseTransition, TransitionBytes, BaseChunks;
    if r.mask != 0 {
      assert Differs(BaseChunks(pages[r.from].planes), BaseChunks(pages[r.to].planes), r.first + r.count - 1);
    }
    TransitionReadsBack(r, |pages|);
  }

  /** Whatever the pages: the validator finds nothing in their transitions. */
  lemma {:induction false} TransitionsPass(
    pages: seq<CompiledPage>, recs: seq<TransitionRecord>, index: Bytes, n: nat)
    requires 0 < |pages| <= U32_LIMIT && IsTransitionIndex(pages, recs, index) && n <= |recs|
    ensures 24 * n <= |index| && TransitionsFound(index, n, |pages|) == []
  {
    hide TransitionOk, TransitionBytes, TransitionIndex, TransitionStands;
    if n > 0 {
      TransitionsPass(pages, recs, index, n - 1);
      TransitionIndexAt(recs, n - 1);
      TransitionPasses(pages, n - 1, recs[n - 1]);
    }
  }
}
