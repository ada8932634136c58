/** The greedy packing loop of `chunk_text`: segments (and, for a segment
    longer than the chunk size, its lines) are gathered into a buffer of
    parts with a running length, and the buffer is flushed when the next
    piece would overflow. This module describes the loop on values: which
    buffers get flushed, in which order. */
module Packing {
  import opened Text

  /** A flushed buffer. `carried` counts its leading parts that were carried
      over from the buffer flushed before it (the overlap). */
  datatype Batch = Batch(parts: seq<string>, carried: nat)

  /** The loop state: the buffers flushed so far, then `current_parts`,
      `current_len` and how many of the current parts were carried over. */
  datatype Packer = Packer(batches: seq<Batch>, parts: seq<string>, len: int, carried: nat)

  const Start := Packer([], [], 0, 0)

  /** The batches after flushing the current buffer. */
  function Emit(p: Packer): seq<Batch> {
    p.batches + [Batch(p.parts, p.carried)]
  }

  /** One iteration of the line loop for an oversized segment, on
      `sub_parts` and `sub_len`. */
  function PackLine(p: Packer, line: string, size: int): Packer {
    var l := Strip(line);
    if l == "" then p
    else
      var q := if p.len + |l| > size && p.parts != [] then Packer(Emit(p), [], 0, 0) else p;
      Packer(q.batches, q.parts + [l], q.len + |l| + 1, q.carried)
  }

  function PackLines(p: Packer, lines: seq<string>, size: int): Packer {
    if lines == [] then p
    else PackLine(PackLines(p, lines[..|lines| - 1], size), lines[|lines| - 1], size)
  }

  /** The buffer after the carry-over: the last `overlap` parts, with the
      running length `sum + count - 1` exactly as the source resets it. */
  function CarryOver(p: Packer, overlap: int): Packer
    requires 0 < overlap <= |p.parts|
  {
    var carry := p.parts[|p.parts| - overlap..];
    Packer(Emit(p), carry, SumLen(carry) + |carry| - 1, overlap)
  }

  /** One iteration of the segment loop. */
  function PackSegment(p: Packer, seg: string, size: int, overlap: int): Packer {
    if |seg| > size then PackLong(p, seg, size) else PackShort(p, seg, size, overlap)
  }

  /** A segment longer than `size`: flush the buffer, pack the segment's
      lines into a fresh one, and keep that one when it is non-empty. */
  function PackLong(p: Packer, seg: string, size: int): Packer {
    var q := if p.parts != [] then Packer(Emit(p), [], 0, 0) else p;
    var r := PackLines(Packer(q.batches, [], 0, 0), Lines(seg), size);
    if r.parts != [] then r else Packer(r.batches, q.parts, q.len, q.carried)
  }

  /** A segment that fits: when it would overflow a non-empty buffer, flush
      and carry over (or start afresh); then append it. */
  function PackShort(p: Packer, seg: string, size: int, overlap: int): Packer {
    var q :=
      if p.len + |seg| > size && p.parts != [] then
        if overlap > 0 && |p.parts| >= overlap then CarryOver(p, overlap)
        else Packer(Emit(p), [], 0, 0)
      else p;
    Packer(q.batches, q.parts + [seg], q.len + |seg| + 1, q.carried)
  }

  function PackSegments(segs: seq<string>, size: int, overlap: int): Packer {
    if segs == [] then Start
    else PackSegment(PackSegments(segs[..|segs| - 1], size, overlap), segs[|segs| - 1], size, overlap)
  }

  /** Every buffer one section flushes, in order: those flushed inside the
      loop, then the one left at the end when it is non-empty. */
  function SectionBatches(segs: seq<string>, size: int, overlap: int): seq<Batch> {
    var p := PackSegments(segs, size, overlap);
    if p.parts != [] then Emit(p) else p.batches
  }

  lemma PackLinesStep(p: Packer, lines: seq<string>, j: nat, size: int)
    requires j < |lines|
    ensures PackLines(p, lines[..j + 1], size) == PackLine(PackLines(p, lines[..j], size), lines[j], size)
  {
    assert lines[..j + 1][..j] == lines[..j];
  }

  lemma PackSegmentsStep(segs: seq<string>, i: nat, size: int, overlap: int)
    requires i < |segs|
    ensures PackSegments(segs[..i + 1], size, overlap)
         == PackSegment(PackSegments(segs[..i], size, overlap), segs[i], size, overlap)
  {
    assert segs[..i + 1][..i] == segs[..i];
  }

  // ---------------------------------------------------------------------
  // The running length

  /** `current_len` is the total length of the parts plus one per part, less
      one while the buffer starts with carried-over parts; an empty buffer
      has length 0; only a positive `overlap` carries parts over. */
  ghost predicate LenOk(p: Packer, overlap: int) {
    && p.carried <= |p.parts|
    && (p.parts == [] ==> p.len == 0)
    && (p.carried > 0 ==> 0 < overlap && p.carried == overlap)
    && p.len == SumLen(p.parts) + |p.parts| - (if p.carried > 0 then 1 else 0)
  }

  lemma SumLenAppend(parts: seq<string>, x: string)
    ensures SumLen(parts + [x]) == SumLen(parts) + |x|
  {
    assert (parts + [x])[..|parts|] == parts;
  }

  lemma AppendLenOk(q: Packer, x: string, overlap: int)
    requires LenOk(q, overlap)
    ensures LenOk(Packer(q.batches, q.parts + [x], q.len + |x| + 1, q.carried), overlap)
  {
    SumLenAppend(q.parts, x);
  }

  lemma PackLineLenOk(p: Packer, line: string, size: int)
    requires LenOk(p, 0)
    ensures LenOk(PackLine(p, line, size), 0)
  {
    var l := Strip(line);
    if l != "" {
      var q := if p.len + |l| > size && p.parts != [] then Packer(Emit(p), [], 0, 0) else p;
      AppendLenOk(q, l, 0);
    }
  }

  lemma {:induction false} PackLinesLenOk(p: Packer, lines: seq<string>, size: int)
    requires LenOk(p, 0)
    ensures LenOk(PackLines(p, lines, size), 0)
  {
    if lines != [] {
      PackLinesLenOk(p, lines[..|lines| - 1], size);
      PackLineLenOk(PackLines(p, lines[..|lines| - 1], size), lines[|lines| - 1], size);
    }
  }

  lemma CarryOverLenOk(p: Packer, overlap: int)
    requires 0 < overlap <= |p.parts|
    ensures LenOk(CarryOver(p, overlap), overlap)
  {
  }

  lemma PackSegmentLenOk(p: Packer, seg: string, size: int, overlap: int)
    requires LenOk(p, overlap)
    ensures LenOk(PackSegment(p, seg, size, overlap), overlap)
  {
    if |seg| > size {
      PackLongLenOk(p, seg, size, overlap);
    } else {
      PackShortLenOk(p, seg, size, overlap);
    }
  }

  lemma PackLongLenOk(p: Packer, seg: string, size: int, overlap: int)
    requires LenOk(p, overlap)
    ensures LenOk(PackLong(p, seg, size), overlap)
  {
    var q := if p.parts != [] then Packer(Emit(p), [], 0, 0) else p;
    PackLinesLenOk(Packer(q.batches, [], 0, 0), Lines(seg), size);
  }

  lemma PackShortLenOk(p: Packer, seg: string, size: int, overlap: int)
    requires LenOk(p, overlap)
    ensures LenOk(PackShort(p, seg, size, overlap), overlap)
  {
    if p.len + |seg| > size && p.parts != [] {
      if overlap > 0 && |p.parts| >= overlap {
        CarryOverLenOk(p, overlap);
        AppendLenOk(CarryOver(p, overlap), seg, overlap);
      } else {
        AppendLenOk(Packer(Emit(p), [], 0, 0), seg, overlap);
      }
    } else {
      AppendLenOk(p, seg, overlap);
    }
  }

  /** The running length is the sum of the part lengths plus the part count,
      minus one after a carry-over (the source's reset at the carry). */
  lemma {:induction false} RunningLength(segs: seq<string>, size: int, overlap: int)
    ensures LenOk(PackSegments(segs, size, overlap), overlap)
  {
    if segs != [] {
      RunningLength(segs[..|segs| - 1], size, overlap);
      PackSegmentLenOk(PackSegments(segs[..|segs| - 1], size, overlap), segs[|segs| - 1], size, overlap);
    }
  }

  /** Without overlap the running length is always sum plus count. */
  lemma RunningLengthNoOverlap(segs: seq<string>, size: int, overlap: int)
    requires overlap <= 0
    ensures var p := PackSegments(segs, size, overlap);
      p.carried == 0 && p.len == SumLen(p.parts) + |p.parts|
  {
    RunningLength(segs, size, overlap);
  }

  // ---------------------------------------------------------------------
  // The size bound without overlap

  /** A flushed buffer fits: its newline join is at most `size` long, or it is
      a single line (an over-long line of an oversized segment). */
  ghost predicate Fits(parts: seq<string>, size: int) {
    parts != [] && (|JoinLines(parts)| <= size || (|parts| == 1 && '\n' !in parts[0]))
  }

  ghost predicate AllFit(bs: seq<Batch>, size: int) {
    forall k :: 0 <= k < |bs| ==> Fits(bs[k].parts, size)
  }

  /** Every flushed buffer fits, and so does the current one when non-empty. */
  ghost predicate FitsOk(p: Packer, size: int) {
    AllFit(p.batches, size) && (p.parts != [] ==> Fits(p.parts, size))
  }

  lemma EmitFits(p: Packer, size: int)
    requires FitsOk(p, size) && p.parts != []
    ensures AllFit(Emit(p), size)
  {
    var bs := Emit(p);
    forall k | 0 <= k < |bs| ensures Fits(bs[k].parts, size) {
      if k < |p.batches| {
        assert bs[k] == p.batches[k];
      }
    }
  }

  lemma JoinLinesAppendLength(parts: seq<string>, x: string)
    requires parts != []
    ensures |JoinLines(parts + [x])| == |JoinLines(parts)| + 1 + |x|
  {
    assert (parts + [x])[..|parts|] == parts;
  }

  /** Appending a piece that fits beside the buffer (or to an empty buffer)
      keeps the bound; the length argument uses `len == sum + count`. */
  lemma AppendFits(q: Packer, x: string, size: int)
    requires FitsOk(q, size) && LenOk(q, 0)
    requires q.parts == [] ==> |x| <= size || '\n' !in x
    requires q.parts != [] ==> q.len + |x| <= size
    ensures FitsOk(Packer(q.batches, q.parts + [x], q.len + |x| + 1, q.carried), size)
  {
    if q.parts == [] {
      assert q.parts + [x] == [x];
      assert JoinLines([x]) == x;
    } else {
      JoinLinesLength(q.parts);
      JoinLinesAppendLength(q.parts, x);
    }
  }

  lemma PackLineFits(p: Packer, line: string, size: int)
    requires FitsOk(p, size) && LenOk(p, 0) && '\n' !in line
    ensures FitsOk(PackLine(p, line, size), size)
  {
    var l := Strip(line);
    if l != "" {
      StripKeepsChars(line);
      if p.len + |l| > size && p.parts != [] {
        EmitFits(p, size);
        AppendFits(Packer(Emit(p), [], 0, 0), l, size);
      } else {
        AppendFits(p, l, size);
      }
    }
  }

  lemma {:induction false} PackLinesFits(p: Packer, lines: seq<string>, size: int)
    requires FitsOk(p, size) && LenOk(p, 0)
    requires forall i :: 0 <= i < |lines| ==> '\n' !in lines[i]
    ensures FitsOk(PackLines(p, lines, size), size)
  {
    if lines != [] {
      var init := lines[..|lines| - 1];
      PackLinesFits(p, init, size);
      PackLinesLenOk(p, init, size);
      PackLineFits(PackLines(p, init, size), lines[|lines| - 1], size);
    }
  }

  lemma PackSegmentFits(p: Packer, seg: string, size: int, overlap: int)
    requires overlap <= 0 && FitsOk(p, size) && LenOk(p, overlap)
    ensures FitsOk(PackSegment(p, seg, size, overlap), size)
  {
    if |seg| > size {
      PackLongFits(p, seg, size, overlap);
    } else {
      PackShortFits(p, seg, size, overlap);
    }
  }

  lemma PackLongFits(p: Packer, seg: string, size: int, overlap: int)
    requires overlap <= 0 && FitsOk(p, size) && LenOk(p, overlap)
    ensures FitsOk(PackLong(p, seg, size), size)
  {
    var q := if p.parts != [] then Packer(Emit(p), [], 0, 0) else p;
    if p.parts != [] {
      EmitFits(p, size);
    }
    PackLinesFits(Packer(q.batches, [], 0, 0), Lines(seg), size);
  }

  lemma PackShortFits(p: Packer, seg: string, size: int, overlap: int)
    requires overlap <= 0 && FitsOk(p, size) && LenOk(p, overlap) && |seg| <= size
    ensures FitsOk(PackShort(p, seg, size, overlap), size)
  {
    if p.len + |seg| > size && p.parts != [] {
      EmitFits(p, size);
      AppendFits(Packer(Emit(p), [], 0, 0), seg, size);
    } else {
      AppendFits(p, seg, size);
    }
  }

  lemma {:induction false} PackSegmentsFits(segs: seq<string>, size: int, overlap: int)
    requires overlap <= 0
    ensures FitsOk(PackSegments(segs, size, overlap), size)
  {
    if segs != [] {
      var init := segs[..|segs| - 1];
      PackSegmentsFits(init, size, overlap);
      RunningLength(init, size, overlap);
      PackSegmentFits(PackSegments(init, size, overlap), segs[|segs| - 1], size, overlap);
    }
  }

  /** With `overlap <= 0` every buffer a section flushes is non-empty and its
      newline join is at most `size` long, unless it is one single line. */
  lemma BatchesFit(segs: seq<string>, size: int, overlap: int)
    requires overlap <= 0
    ensures AllFit(SectionBatches(segs, size, overlap), size)
  {
    PackSegmentsFits(segs, size, overlap);
    var p := PackSegments(segs, size, overlap);
    if p.parts != [] {
      EmitFits(p, size);
    }
  }

  // ---------------------------------------------------------------------
  // Nothing is lost: every piece reaches a flushed buffer

  /** The pieces a segment contributes: itself, or, when it is longer than
      `size`, its stripped non-empty lines. */
  function SegmentUnits(seg: string, size: int): seq<string> {
    if |seg| > size then StrippedNonEmpty(Lines(seg)) else [seg]
  }

  function Units(segs: seq<string>, size: int): seq<string> {
    if segs == [] then []
    else Units(segs[..|segs| - 1], size) + SegmentUnits(segs[|segs| - 1], size)
  }

  /** The parts a batch adds beyond those carried over into it. */
  function NewParts(b: Batch): seq<string> {
    if b.carried <= |b.parts| then b.parts[b.carried..] else []
  }

  /** The new parts of a run of batches, in order. */
  function Fresh(bs: seq<Batch>): seq<string> {
    if bs == [] then [] else Fresh(bs[..|bs| - 1]) + NewParts(bs[|bs| - 1])
  }

  /** What a packer holds that no earlier buffer held. */
  function Held(p: Packer): seq<string> {
    Fresh(p.batches) + (if p.carried <= |p.parts| then p.parts[p.carried..] else [])
  }

  lemma FreshEmit(p: Packer)
    ensures Fresh(Emit(p)) == Held(p)
  {
    assert Emit(p)[..|p.batches|] == p.batches;
  }

  lemma AppendHeld(q: Packer, x: string)
    requires q.carried <= |q.parts|
    ensures Held(Packer(q.batches, q.parts + [x], q.len + |x| + 1, q.carried)) == Held(q) + [x]
  {
    assert (q.parts + [x])[q.carried..] == q.parts[q.carried..] + [x];
  }

  lemma PackLineHeld(p: Packer, line: string, size: int)
    requires p.carried == 0
    ensures PackLine(p, line, size).carried == 0
    ensures var l := Strip(line);
      Held(PackLine(p, line, size)) == Held(p) + (if l == "" then [] else [l])
  {
    var l := Strip(line);
    if l != "" {
      if p.len + |l| > size && p.parts != [] {
        FreshEmit(p);
        AppendHeld(Packer(Emit(p), [], 0, 0), l);
      } else {
        AppendHeld(p, l);
      }
    }
  }

  lemma {:induction false} PackLinesHeld(p: Packer, lines: seq<string>, size: int)
    requires p.carried == 0
    ensures PackLines(p, lines, size).carried == 0
    ensures Held(PackLines(p, lines, size)) == Held(p) + StrippedNonEmpty(lines)
  {
    if lines != [] {
      var init, line := lines[..|lines| - 1], lines[|lines| - 1];
      var l := Strip(line);
      PackLinesHeld(p, init, size);
      PackLineHeld(PackLines(p, init, size), line, size);
      assert StrippedNonEmpty(lines) == StrippedNonEmpty(init) + (if l == "" then [] else [l]);
    }
  }

  lemma CarryOverHeld(p: Packer, overlap: int)
    requires 0 < overlap <= |p.parts| && p.carried <= |p.parts|
    ensures Held(CarryOver(p, overlap)) == Held(p)
  {
    FreshEmit(p);
  }

  lemma PackSegmentHeld(p: Packer, seg: string, size: int, overlap: int)
    requires LenOk(p, overlap)
    ensures Held(PackSegment(p, seg, size, overlap)) == Held(p) + SegmentUnits(seg, size)
  {
    if |seg| > size {
      PackLongHeld(p, seg, size, overlap);
    } else {
      PackShortHeld(p, seg, size, overlap);
    }
  }

  lemma PackLongHeld(p: Packer, seg: string, size: int, overlap: int)
    requires LenOk(p, overlap)
    ensures Held(PackLong(p, seg, size)) == Held(p) + StrippedNonEmpty(Lines(seg))
  {
    var q := if p.parts != [] then Packer(Emit(p), [], 0, 0) else p;
    FreshEmit(p);
    assert Held(Packer(q.batches, [], 0, 0)) == Held(p);
    PackLinesHeld(Packer(q.batches, [], 0, 0), Lines(seg), size);
  }

  lemma PackShortHeld(p: Packer, seg: string, size: int, overlap: int)
    requires LenOk(p, overlap)
    ensures Held(PackShort(p, seg, size, overlap)) == Held(p) + [seg]
  {
    if p.len + |seg| > size && p.parts != [] {
      if overlap > 0 && |p.parts| >= overlap {
        CarryOverHeld(p, overlap);
        AppendHeld(CarryOver(p, overlap), seg);
      } else {
        FreshEmit(p);
        AppendHeld(Packer(Emit(p), [], 0, 0), seg);
      }
    } else {
      AppendHeld(p, seg);
    }
  }

  lemma {:induction false} PackSegmentsHeld(segs: seq<string>, size: int, overlap: int)
    ensures Held(PackSegments(segs, size, overlap)) == Units(segs, size)
  {
    if segs != [] {
      var init := segs[..|segs| - 1];
      PackSegmentsHeld(init, size, overlap);
      RunningLength(init, size, overlap);
      PackSegmentHeld(PackSegments(init, size, overlap), segs[|segs| - 1], size, overlap);
    }
  }

  /** No piece is lost: the parts the batches of a section add, beyond those
      carried over, are exactly the pieces of its segments, in order. */
  lemma BatchesCoverUnits(segs: seq<string>, size: int, overlap: int)
    ensures Fresh(SectionBatches(segs, size, overlap)) == Units(segs, size)
  {
    var p := PackSegments(segs, size, overlap);
    PackSegmentsHeld(segs, size, overlap);
    RunningLength(segs, size, overlap);
    FreshEmit(p);
  }

  // ---------------------------------------------------------------------
  // The overlap carry

  /** `next` starts with the last `next.carried` parts of `prev`. */
  ghost predicate CarriedFrom(prev: Batch, next: Batch) {
    && next.carried <= |next.parts|
    && next.carried <= |prev.parts|
    && next.parts[..next.carried] == prev.parts[|prev.parts| - next.carried..]
  }

  /** The first batch carries nothing, each later one carries `overlap` parts
      or none, and what it carries is the tail of the batch before it. */
  ghost predicate Chained(bs: seq<Batch>, overlap: int) {
    && (bs != [] ==> bs[0].carried == 0)
    && (forall k :: 0 <= k < |bs| ==> bs[k].carried == 0 || (0 < overlap && bs[k].carried == overlap))
    && (forall j, k :: 0 <= j < k < |bs| && k == j + 1 ==> CarriedFrom(bs[j], bs[k]))
  }

  /** The batches are chained and the current buffer is chained to the last. */
  ghost predicate CarryOk(p: Packer, overlap: int) {
    && Chained(p.batches, overlap)
    && (p.carried > 0 ==> p.batches != [] && CarriedFrom(p.batches[|p.batches| - 1], Batch(p.parts, p.carried)))
  }

  lemma EmitChained(p: Packer, overlap: int)
    requires CarryOk(p, overlap) && LenOk(p, overlap)
    ensures Chained(Emit(p), overlap)
  {
    var bs := Emit(p);
    var n := |p.batches|;
    forall k | 0 <= k < |bs| ensures bs[k].carried == 0 || (0 < overlap && bs[k].carried == overlap) {
      if k < n {
        assert bs[k] == p.batches[k];
      }
    }
    forall j, k | 0 <= j < k < |bs| && k == j + 1 ensures CarriedFrom(bs[j], bs[k]) {
      assert bs[j] == p.batches[j];
      if k < n {
        assert bs[k] == p.batches[k];
      } else if bs[k].carried == 0 {
        assert bs[k].parts[..0] == [] && bs[j].parts[|bs[j].parts|..] == [];
      }
    }
  }

  lemma AppendCarryOk(q: Packer, x: string, overlap: int)
    requires CarryOk(q, overlap) && q.carried <= |q.parts|
    ensures CarryOk(Packer(q.batches, q.parts + [x], q.len + |x| + 1, q.carried), overlap)
  {
    assert (q.parts + [x])[..q.carried] == q.parts[..q.carried];
  }

  lemma PackLineCarryOk(p: Packer, line: string, size: int, overlap: int)
    requires CarryOk(p, overlap) && LenOk(p, 0)
    ensures CarryOk(PackLine(p, line, size), overlap)
  {
    var l := Strip(line);
    if l != "" {
      if p.len + |l| > size && p.parts != [] {
        EmitChained(p, overlap);
        AppendCarryOk(Packer(Emit(p), [], 0, 0), l, overlap);
      } else {
        AppendCarryOk(p, l, overlap);
      }
    }
  }

  lemma {:induction false} PackLinesCarryOk(p: Packer, lines: seq<string>, size: int, overlap: int)
    requires CarryOk(p, overlap) && LenOk(p, 0)
    ensures CarryOk(PackLines(p, lines, size), overlap)
  {
    if lines != [] {
      var init := lines[..|lines| - 1];
      PackLinesCarryOk(p, init, size, overlap);
      PackLinesLenOk(p, init, size);
      PackLineCarryOk(PackLines(p, init, size), lines[|lines| - 1], size, overlap);
    }
  }

  lemma CarryOverCarryOk(p: Packer, overlap: int)
    requires CarryOk(p, overlap) && LenOk(p, overlap) && 0 < overlap <= |p.parts|
    ensures CarryOk(CarryOver(p, overlap), overlap)
  {
    EmitChained(p, overlap);
    var q := CarryOver(p, overlap);
    assert q.batches[|q.batches| - 1] == Batch(p.parts, p.carried);
    assert q.parts[..overlap] == q.parts;
  }

  lemma PackSegmentCarryOk(p: Packer, seg: string, size: int, overlap: int)
    requires CarryOk(p, overlap) && LenOk(p, overlap)
    ensures CarryOk(PackSegment(p, seg, size, overlap), overlap)
  {
    if |seg| > size {
      PackLongCarryOk(p, seg, size, overlap);
    } else {
      PackShortCarryOk(p, seg, size, overlap);
    }
  }

  lemma PackLongCarryOk(p: Packer, seg: string, size: int, overlap: int)
    requires CarryOk(p, overlap) && LenOk(p, overlap)
    ensures CarryOk(PackLong(p, seg, size), overlap)
  {
    var q := if p.parts != [] then Packer(Emit(p), [], 0, 0) else p;
    if p.parts != [] {
      EmitChained(p, overlap);
    }
    PackLinesCarryOk(Packer(q.batches, [], 0, 0), Lines(seg), size, overlap);
  }

  lemma PackShortCarryOk(p: Packer, seg: string, size: int, overlap: int)
    requires CarryOk(p, overlap) && LenOk(p, overlap)
    ensures CarryOk(PackShort(p, seg, size, overlap), overlap)
  {
    if p.len + |seg| > size && p.parts != [] {
      if overlap > 0 && |p.parts| >= overlap {
        CarryOverCarryOk(p, overlap);
        CarryOverLenOk(p, overlap);
        AppendCarryOk(CarryOver(p, overlap), seg, overlap);
      } else {
        EmitChained(p, overlap);
        AppendCarryOk(Packer(Emit(p), [], 0, 0), seg, overlap);
      }
    } else {
      AppendCarryOk(p, seg, overlap);
    }
  }

  lemma {:induction false} PackSegmentsCarryOk(segs: seq<string>, size: int, overlap: int)
    ensures CarryOk(PackSegments(segs, size, overlap), overlap)
  {
    if segs != [] {
      var init := segs[..|segs| - 1];
      PackSegmentsCarryOk(init, size, overlap);
      RunningLength(init, size, overlap);
      PackSegmentCarryOk(PackSegments(init, size, overlap), segs[|segs| - 1], size, overlap);
    }
  }

  /** With a positive `overlap`, each flushed buffer either starts afresh or
      starts with exactly the last `overlap` parts of the buffer flushed
      before it; without overlap nothing is ever carried. */
  lemma BatchesChained(segs: seq<string>, size: int, overlap: int)
    ensures Chained(SectionBatches(segs, size, overlap), overlap)
  {
    var p := PackSegments(segs, size, overlap);
    PackSegmentsCarryOk(segs, size, overlap);
    RunningLength(segs, size, overlap);
    if p.parts != [] {
      EmitChained(p, overlap);
    }
  }
}
