/** `chunk_text`: detect the sections of a document, split each body into
    segments, pack the segments greedily into buffers of at most the chunk
    size, and flush each buffer as a labelled, deduplicated chunk. */
module Chunker {
  import opened Text
  import opened Dedup
  import opened Sections
  import opened Segments
  import opened Flush
  import opened Packing

  // ---------------------------------------------------------------------
  // Specification

  /** The store after flushing the given buffers, in order, under one label. */
  function FlushAll(st: Store, bs: seq<Batch>, name: string): Store {
    if bs == [] then st
    else FlushSpec(FlushAll(st, bs[..|bs| - 1], name), bs[|bs| - 1].parts, name)
  }

  /** The buffers one section flushes. */
  function SectionBuffers(sec: Section, size: int, overlap: int): seq<Batch> {
    SectionBatches(SegmentsOf(sec.body), size, overlap)
  }

  /** The store after chunking the given sections, in order. */
  function ChunkSections(st: Store, secs: seq<Section>, size: int, overlap: int): Store {
    if secs == [] then st
    else
      var last := secs[|secs| - 1];
      FlushAll(ChunkSections(st, secs[..|secs| - 1], size, overlap), SectionBuffers(last, size, overlap), last.name)
  }

  /** The final store of `chunk_text`: empty for a blank text or a text
      without sections. */
  function ChunkStore(text: string, size: int, overlap: int): Store {
    if text == "" || Strip(text) == "" then Store([], {})
    else
      var secs := SectionsOf(text);
      if secs == [] then Store([], {}) else ChunkSections(Store([], {}), secs, size, overlap)
  }

  /** The chunk list `chunk_text` returns. */
  function ChunkTextSpec(text: string, size: int, overlap: int): seq<Chunk> {
    ChunkStore(text, size, overlap).chunks
  }

  lemma FlushAllStep(st: Store, bs: seq<Batch>, b: Batch, name: string)
    ensures FlushAll(st, bs + [b], name) == FlushSpec(FlushAll(st, bs, name), b.parts, name)
  {
    assert (bs + [b])[..|bs|] == bs;
  }

  lemma ChunkSectionsStep(st: Store, secs: seq<Section>, i: nat, size: int, overlap: int)
    requires i < |secs|
    ensures ChunkSections(st, secs[..i + 1], size, overlap)
         == FlushAll(ChunkSections(st, secs[..i], size, overlap), SectionBuffers(secs[i], size, overlap), secs[i].name)
  {
    assert secs[..i + 1][..i] == secs[..i];
  }

  // ---------------------------------------------------------------------
  // Properties of the output

  /** A blank text gives no chunks. */
  lemma BlankTextNoChunks(text: string, size: int, overlap: int)
    requires AllSpace(text)
    ensures ChunkTextSpec(text, size, overlap) == []
  {
    StripEmpty(text);
  }

  lemma {:induction false} FlushAllKeepsInv(st: Store, bs: seq<Batch>, name: string)
    requires StoreInv(st)
    ensures StoreInv(FlushAll(st, bs, name))
  {
    if bs != [] {
      FlushAllKeepsInv(st, bs[..|bs| - 1], name);
      FlushKeepsInv(FlushAll(st, bs[..|bs| - 1], name), bs[|bs| - 1].parts, name);
    }
  }

  lemma {:induction false} ChunkSectionsKeepsInv(st: Store, secs: seq<Section>, size: int, overlap: int)
    requires StoreInv(st)
    ensures StoreInv(ChunkSections(st, secs, size, overlap))
  {
    if secs != [] {
      var last := secs[|secs| - 1];
      ChunkSectionsKeepsInv(st, secs[..|secs| - 1], size, overlap);
      FlushAllKeepsInv(ChunkSections(st, secs[..|secs| - 1], size, overlap), SectionBuffers(last, size, overlap), last.name);
    }
  }

  lemma ChunkStoreInv(text: string, size: int, overlap: int)
    ensures StoreInv(ChunkStore(text, size, overlap))
  {
    EmptyStoreInv();
    if !(text == "" || Strip(text) == "") && SectionsOf(text) != [] {
      ChunkSectionsKeepsInv(Store([], {}), SectionsOf(text), size, overlap);
    }
  }

  /** The chunks are numbered `chunk_0`, `chunk_1`, ... in order, their ids
      are pairwise different, and no two of them have the same normal form. */
  lemma ChunkIdsAndNorms(text: string, size: int, overlap: int)
    ensures var cs := ChunkTextSpec(text, size, overlap);
      && (forall i :: 0 <= i < |cs| ==> cs[i].id == ChunkId(i))
      && (forall i, j :: 0 <= i < j < |cs| ==> cs[i].id != cs[j].id)
      && (forall i, j :: 0 <= i < j < |cs| ==> NormalizeForDedup(cs[i].text) != NormalizeForDedup(cs[j].text))
  {
    ChunkStoreInv(text, size, overlap);
    IdsDistinct(ChunkStore(text, size, overlap));
  }

  /** A buffer is delivered when its body is blank or a chunk with the same
      normal form as its rendering is already stored. */
  ghost predicate Delivered(st: Store, name: string, b: Batch) {
    var body := FlushBody(b.parts);
    body == "" || NormalizeForDedup(Render(name, body)) in st.seen
  }

  lemma FlushGrows(st: Store, parts: seq<string>, name: string)
    ensures st.seen <= FlushSpec(st, parts, name).seen
  {
  }

  lemma {:induction false} FlushAllGrows(st: Store, bs: seq<Batch>, name: string)
    ensures st.seen <= FlushAll(st, bs, name).seen
  {
    if bs != [] {
      FlushAllGrows(st, bs[..|bs| - 1], name);
      FlushGrows(FlushAll(st, bs[..|bs| - 1], name), bs[|bs| - 1].parts, name);
    }
  }

  /** Flushing a buffer delivers it, and it stays delivered afterwards. */
  lemma {:induction false} FlushAllDelivers(st: Store, bs: seq<Batch>, name: string, k: nat)
    requires k < |bs|
    ensures Delivered(FlushAll(st, bs, name), name, bs[k])
  {
    var init := bs[..|bs| - 1];
    var before := FlushAll(st, init, name);
    if k == |bs| - 1 {
      FlushOutcome(before, bs[k].parts, name);
    } else {
      FlushAllDelivers(st, init, name, k);
      assert init[k] == bs[k];
      FlushGrows(before, bs[|bs| - 1].parts, name);
    }
  }

  /** Nothing is dropped except as a duplicate: each buffer of each section
      ends up either blank or with its normal form among the stored ones. */
  lemma {:induction false} ChunkSectionsDeliver(st: Store, secs: seq<Section>, size: int, overlap: int, i: nat, k: nat)
    requires i < |secs| && k < |SectionBuffers(secs[i], size, overlap)|
    ensures Delivered(ChunkSections(st, secs, size, overlap), secs[i].name, SectionBuffers(secs[i], size, overlap)[k])
  {
    var n := |secs| - 1;
    var init := secs[..n];
    var mid := ChunkSections(st, init, size, overlap);
    if i == n {
      FlushAllDelivers(mid, SectionBuffers(secs[n], size, overlap), secs[n].name, k);
    } else {
      assert secs[i] == init[i];
      ChunkSectionsDeliver(st, init, size, overlap, i, k);
      FlushAllGrows(mid, SectionBuffers(secs[n], size, overlap), secs[n].name);
    }
  }

  /** Some chunk has normal form `norm`. */
  ghost predicate HasNorm(cs: seq<Chunk>, norm: string) {
    exists j :: 0 <= j < |cs| && NormalizeForDedup(cs[j].text) == norm
  }

  /** Every non-blank buffer of every section is represented in the output
      by a chunk with the same normal form as its rendering. */
  lemma NothingDroppedButDuplicates(secs: seq<Section>, size: int, overlap: int, i: nat, k: nat)
    requires i < |secs| && k < |SectionBuffers(secs[i], size, overlap)|
    ensures var body := FlushBody(SectionBuffers(secs[i], size, overlap)[k].parts);
      body == "" || HasNorm(ChunkSections(Store([], {}), secs, size, overlap).chunks, NormalizeForDedup(Render(secs[i].name, body)))
  {
    var st := ChunkSections(Store([], {}), secs, size, overlap);
    var body := FlushBody(SectionBuffers(secs[i], size, overlap)[k].parts);
    if body != "" {
      var norm := NormalizeForDedup(Render(secs[i].name, body));
      assert norm in st.seen by {
        ChunkSectionsDeliver(Store([], {}), secs, size, overlap, i, k);
      }
      assert StoreInv(st) by {
        EmptyStoreInv();
        ChunkSectionsKeepsInv(Store([], {}), secs, size, overlap);
      }
    }
  }

  /** For a text that is not blank, the output is that of its sections. */
  lemma ChunkTextOfSections(text: string, size: int, overlap: int)
    requires !AllSpace(text)
    ensures ChunkTextSpec(text, size, overlap) == ChunkSections(Store([], {}), SectionsOf(text), size, overlap).chunks
  {
    StripEmpty(text);
  }

  /** The chunk is the rendering, under `name`, of the non-blank body of one
      of the buffers `bs`. */
  ghost predicate RenderedFrom(c: Chunk, name: string, bs: seq<Batch>) {
    exists j :: 0 <= j < |bs| && FlushBody(bs[j].parts) != "" && c.text == Render(name, FlushBody(bs[j].parts))
  }

  lemma RenderedFromMore(c: Chunk, name: string, bs: seq<Batch>, n: nat)
    requires n <= |bs| && RenderedFrom(c, name, bs[..n])
    ensures RenderedFrom(c, name, bs)
  {
    var j :| 0 <= j < n && FlushBody(bs[..n][j].parts) != "" && c.text == Render(name, FlushBody(bs[..n][j].parts));
    assert bs[..n][j] == bs[j];
  }

  lemma {:induction false} FlushAllRenders(st: Store, bs: seq<Batch>, name: string)
    ensures var r := FlushAll(st, bs, name);
      && |st.chunks| <= |r.chunks| && r.chunks[..|st.chunks|] == st.chunks
      && forall i :: |st.chunks| <= i < |r.chunks| ==> RenderedFrom(r.chunks[i], name, bs)
  {
    if bs != [] {
      var n := |bs| - 1;
      var mid := FlushAll(st, bs[..n], name);
      var r := FlushAll(st, bs, name);
      FlushAllRenders(st, bs[..n], name);
      FlushOutcome(mid, bs[n].parts, name);
      if r != mid {
        assert RenderedFrom(r.chunks[|mid.chunks|], name, bs) by {
          assert r.chunks[|mid.chunks|].text == Render(name, FlushBody(bs[n].parts));
        }
        forall i | |st.chunks| <= i < |r.chunks| ensures RenderedFrom(r.chunks[i], name, bs) {
          if i < |mid.chunks| {
            assert r.chunks[i] == mid.chunks[i];
            RenderedFromMore(r.chunks[i], name, bs, n);
          }
        }
        assert r.chunks[..|st.chunks|] == mid.chunks[..|st.chunks|];
      } else {
        forall i | |st.chunks| <= i < |r.chunks| ensures RenderedFrom(r.chunks[i], name, bs) {
          RenderedFromMore(r.chunks[i], name, bs, n);
        }
      }
    }
  }

  /** The chunk renders, under the label of one of `secs`, the body of a
      buffer that section flushed. */
  ghost predicate LabelledBy(c: Chunk, secs: seq<Section>, size: int, overlap: int) {
    exists k :: 0 <= k < |secs| && RenderedFrom(c, secs[k].name, SectionBuffers(secs[k], size, overlap))
  }

  lemma LabelledByMore(c: Chunk, secs: seq<Section>, n: nat, size: int, overlap: int)
    requires n <= |secs| && LabelledBy(c, secs[..n], size, overlap)
    ensures LabelledBy(c, secs, size, overlap)
  {
    var k :| 0 <= k < n && RenderedFrom(c, secs[..n][k].name, SectionBuffers(secs[..n][k], size, overlap));
    assert secs[..n][k] == secs[k];
  }

  /** Every new chunk renders the body of a buffer one of the sections
      flushed, under that section's label, and earlier chunks are never changed. */
  lemma {:induction false} ChunkSectionsRender(st: Store, secs: seq<Section>, size: int, overlap: int)
    ensures var r := ChunkSections(st, secs, size, overlap);
      && |st.chunks| <= |r.chunks| && r.chunks[..|st.chunks|] == st.chunks
      && forall i :: |st.chunks| <= i < |r.chunks| ==> LabelledBy(r.chunks[i], secs, size, overlap)
  {
    if secs != [] {
      var n := |secs| - 1;
      var mid := ChunkSections(st, secs[..n], size, overlap);
      var r := ChunkSections(st, secs, size, overlap);
      var bs := SectionBuffers(secs[n], size, overlap);
      ChunkSectionsRender(st, secs[..n], size, overlap);
      FlushAllRenders(mid, bs, secs[n].name);
      forall i | |st.chunks| <= i < |r.chunks| ensures LabelledBy(r.chunks[i], secs, size, overlap) {
        if i < |mid.chunks| {
          assert r.chunks[i] == mid.chunks[i];
          LabelledByMore(r.chunks[i], secs, n, size, overlap);
        } else {
          assert RenderedFrom(r.chunks[i], secs[n].name, bs);
        }
      }
      assert r.chunks[..|st.chunks|] == mid.chunks[..|st.chunks|];
    }
  }

  /** Each chunk's text is `[label] body`, or `body` for an unlabelled
      section, where `body` is the stripped newline join of a non-blank buffer
      that the labelled section flushed. */
  lemma ChunksAreRendered(text: string, size: int, overlap: int)
    ensures var cs := ChunkTextSpec(text, size, overlap);
      forall i :: 0 <= i < |cs| ==> LabelledBy(cs[i], SectionsOf(text), size, overlap)
  {
    if AllSpace(text) {
      BlankTextNoChunks(text, size, overlap);
    } else {
      ChunkTextOfSections(text, size, overlap);
      ChunkSectionsRender(Store([], {}), SectionsOf(text), size, overlap);
    }
  }

  /** A buffer that fits flushes to a body of at most `size` characters, or to
      a single line. */
  lemma BodyFits(parts: seq<string>, size: int)
    requires Fits(parts, size)
    ensures |FlushBody(parts)| <= size || '\n' !in FlushBody(parts)
  {
    if |JoinLines(parts)| > size {
      assert JoinLines(parts) == parts[0];
      StripKeepsChars(parts[0]);
    }
  }

  /** The chunk renders, under the label of one of `secs`, a non-empty
      stripped body of at most `size` characters, or a single line. */
  ghost predicate RenderedWithin(c: Chunk, secs: seq<Section>, size: int) {
    exists k, body :: 0 <= k < |secs| && c.text == Render(secs[k].name, body)
      && body != "" && IsStripped(body) && (|body| <= size || '\n' !in body)
  }

  /** Without overlap, every chunk body is at most `chunk_size` characters
      long, unless it is a single line longer than that. */
  lemma ChunkBodiesFit(text: string, size: int, overlap: int)
    requires overlap <= 0
    ensures var cs := ChunkTextSpec(text, size, overlap);
      forall i :: 0 <= i < |cs| ==> RenderedWithin(cs[i], SectionsOf(text), size)
  {
    var cs := ChunkTextSpec(text, size, overlap);
    var secs := SectionsOf(text);
    ChunksAreRendered(text, size, overlap);
    forall i | 0 <= i < |cs| ensures RenderedWithin(cs[i], secs, size) {
      var k :| 0 <= k < |secs| && RenderedFrom(cs[i], secs[k].name, SectionBuffers(secs[k], size, overlap));
      var bs := SectionBuffers(secs[k], size, overlap);
      var j :| 0 <= j < |bs| && FlushBody(bs[j].parts) != "" && cs[i].text == Render(secs[k].name, FlushBody(bs[j].parts));
      BatchesFit(SegmentsOf(secs[k].body), size, overlap);
      assert Fits(bs[j].parts, size);
      BodyFits(bs[j].parts, size);
      var body := FlushBody(bs[j].parts);
      assert cs[i].text == Render(secs[k].name, body) && IsStripped(body);
    }
  }

  // ---------------------------------------------------------------------
  // The loops

  /** A call of `_flush_chunk` on the buffer `parts`, recorded as one more
      flushed buffer. */
  method FlushBuffer(sink: ChunkSink, name: string, parts: seq<string>, ghost carried: nat,
                     ghost st0: Store, ghost batches0: seq<Batch>) returns (ghost batches: seq<Batch>)
    requires sink.State() == FlushAll(st0, batches0, name)
    modifies sink
    ensures batches == batches0 + [Batch(parts, carried)]
    ensures sink.State() == FlushAll(st0, batches, name)
  {
    FlushAllStep(st0, batches0, Batch(parts, carried), name);
    sink.FlushChunk(parts, name);
    batches := batches0 + [Batch(parts, carried)];
  }

  /** The line loop for a segment longer than the chunk size: lines are
      stripped, blank ones skipped, and `sub_parts` is flushed whenever the
      next line would overflow it. */
  method PackLinesLoop(sink: ChunkSink, name: string, seg: string, size: int,
                       ghost st0: Store, ghost batches0: seq<Batch>)
      returns (subParts: seq<string>, subLen: int, ghost batches: seq<Batch>)
    requires sink.State() == FlushAll(st0, batches0, name)
    modifies sink
    ensures Packer(batches, subParts, subLen, 0) == PackLines(Packer(batches0, [], 0, 0), Lines(seg), size)
    ensures sink.State() == FlushAll(st0, batches, name)
  {
    var lines := Lines(seg);
    subParts, subLen, batches := [], 0, batches0;
    for j := 0 to |lines|
      invariant Packer(batches, subParts, subLen, 0) == PackLines(Packer(batches0, [], 0, 0), lines[..j], size)
      invariant sink.State() == FlushAll(st0, batches, name)
    {
      PackLinesStep(Packer(batches0, [], 0, 0), lines, j, size);
      var line := Strip(lines[j]);
      if line == "" {
        continue;
      }
      if subLen + |line| > size && subParts != [] {
        batches := FlushBuffer(sink, name, subParts, 0, st0, batches);
        subParts, subLen := [], 0;
      }
      subParts := subParts + [line];
      subLen := subLen + |line| + 1;
    }
    assert lines[..|lines|] == lines;
  }

  /** The branch of the segment loop for a segment longer than the chunk
      size: flush the buffer first, run the line loop, and keep what it
      leaves as the new buffer when that is non-empty. */
  method PackLongSegment(sink: ChunkSink, name: string, seg: string, size: int,
                         currentParts: seq<string>, currentLen: int,
                         ghost carried: nat, ghost st0: Store, ghost batches0: seq<Batch>)
      returns (parts: seq<string>, len: int, ghost carriedAfter: nat, ghost batches: seq<Batch>)
    requires |seg| > size
    requires sink.State() == FlushAll(st0, batches0, name)
    modifies sink
    ensures Packer(batches, parts, len, carriedAfter)
         == PackLong(Packer(batches0, currentParts, currentLen, carried), seg, size)
    ensures sink.State() == FlushAll(st0, batches, name)
  {
    parts, len, carriedAfter, batches := currentParts, currentLen, carried, batches0;
    if parts != [] {
      batches := FlushBuffer(sink, name, parts, carriedAfter, st0, batches);
      parts, len, carriedAfter := [], 0, 0;
    }
    var subParts, subLen;
    subParts, subLen, batches := PackLinesLoop(sink, name, seg, size, st0, batches);
    if subParts != [] {
      parts, len, carriedAfter := subParts, subLen, 0;
    }
  }

  /** The branch of the segment loop for a segment that fits the chunk
      size: when it would overflow a non-empty buffer, flush the buffer and
      start the next one from the last `overlap` parts (with the running
      length reset to `sum + count - 1`) or empty; then append the segment. */
  method PackShortSegment(sink: ChunkSink, name: string, seg: string, size: int, overlap: int,
                          currentParts: seq<string>, currentLen: int,
                          ghost carried: nat, ghost st0: Store, ghost batches0: seq<Batch>)
      returns (parts: seq<string>, len: int, ghost carriedAfter: nat, ghost batches: seq<Batch>)
    requires |seg| <= size
    requires sink.State() == FlushAll(st0, batches0, name)
    modifies sink
    ensures Packer(batches, parts, len, carriedAfter)
         == PackShort(Packer(batches0, currentParts, currentLen, carried), seg, size, overlap)
    ensures sink.State() == FlushAll(st0, batches, name)
  {
    parts, len, carriedAfter, batches := currentParts, currentLen, carried, batches0;
    if len + |seg| > size && parts != [] {
      batches := FlushBuffer(sink, name, parts, carriedAfter, st0, batches);
      if overlap > 0 && |parts| >= overlap {
        var carry := parts[|parts| - overlap..];
        parts := carry;
        len := SumLen(carry) + |carry| - 1;
        carriedAfter := overlap;
      } else {
        parts, len, carriedAfter := [], 0, 0;
      }
    }
    parts := parts + [seg];
    len := len + |seg| + 1;
  }

  /** The segment loop of one section, followed by the flush of whatever
      remains in the buffer. */
  method PackSection(sink: ChunkSink, name: string, segments: seq<string>, size: int, overlap: int)
    modifies sink
    ensures sink.State() == FlushAll(old(sink.State()), SectionBatches(segments, size, overlap), name)
  {
    ghost var st0 := sink.State();
    var currentParts: seq<string> := [];
    var currentLen := 0;
    ghost var carried: nat := 0;
    ghost var batches: seq<Batch> := [];
    for i := 0 to |segments|
      invariant Packer(batches, currentParts, currentLen, carried) == PackSegments(segments[..i], size, overlap)
      invariant sink.State() == FlushAll(st0, batches, name)
    {
      PackSegmentsStep(segments, i, size, overlap);
      var seg := segments[i];
      var segLen := |seg|;
      if segLen > size {
        currentParts, currentLen, carried, batches :=
          PackLongSegment(sink, name, seg, size, currentParts, currentLen, carried, st0, batches);
      } else {
        currentParts, currentLen, carried, batches :=
          PackShortSegment(sink, name, seg, size, overlap, currentParts, currentLen, carried, st0, batches);
      }
    }
    if currentParts != [] {
      batches := FlushBuffer(sink, name, currentParts, carried, st0, batches);
    }
    assert segments[..|segments|] == segments;
  }

  /** `chunk_text(text, chunk_size=400, overlap=0)`. */
  method ChunkText(text: string, chunkSize: int := 400, overlap: int := 0) returns (chunks: seq<Chunk>)
    ensures chunks == ChunkTextSpec(text, chunkSize, overlap)
  {
    if text == "" || Strip(text) == "" {
      return [];
    }
    var sections := DetectSections(text);
    if sections == [] {
      return [];
    }
    var sink := new ChunkSink();
    for i := 0 to |sections|
      invariant sink.State() == ChunkSections(Store([], {}), sections[..i], chunkSize, overlap)
    {
      ChunkSectionsStep(Store([], {}), sections, i, chunkSize, overlap);
      var segments := SplitIntoSegments(sections[i].body);
      if segments == [] {
        continue;
      }
      PackSection(sink, sections[i].name, segments, chunkSize, overlap);
    }
    assert sections[..|sections|] == sections;
    chunks := sink.chunks;
  }
}
