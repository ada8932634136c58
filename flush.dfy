/** `_flush_chunk`: turning a buffer of parts into a labelled chunk, unless
    the chunk would duplicate one already produced in this run. */
module Flush {
  import opened Text
  import opened Dedup

  /** One output record `{"id": ..., "text": ...}`. */
  datatype Chunk = Chunk(id: string, text: string)

  /** The decimal digits of `n`, as `str(n)` writes them. */
  function NatToDecimal(n: nat): (r: string)
    ensures r != []
    ensures forall i :: 0 <= i < |r| ==> IsDigit(r[i])
  {
    if n < 10 then [('0' as int + n) as char]
    else NatToDecimal(n / 10) + [('0' as int + n % 10) as char]
  }

  /** The value of a string of decimal digits. */
  function DecimalValue(s: string): nat
    requires forall i :: 0 <= i < |s| ==> IsDigit(s[i])
  {
    if s == [] then 0
    else
      assert IsDigit(s[|s| - 1]);
      10 * DecimalValue(s[..|s| - 1]) + (s[|s| - 1] as int - '0' as int)
  }

  /** Reading back the digits of `n` gives `n`. */
  lemma {:induction false} DecimalRoundTrip(n: nat)
    ensures DecimalValue(NatToDecimal(n)) == n
  {
    if n >= 10 {
      var r := NatToDecimal(n);
      DecimalRoundTrip(n / 10);
      assert r[..|r| - 1] == NatToDecimal(n / 10);
    }
  }

  /** `f"chunk_{n}"`. */
  function ChunkId(n: nat): string {
    "chunk_" + NatToDecimal(n)
  }

  /** Different positions get different ids. */
  lemma ChunkIdInjective(m: nat, n: nat)
    requires ChunkId(m) == ChunkId(n)
    ensures m == n
  {
    var a, b := NatToDecimal(m), NatToDecimal(n);
    assert a == ChunkId(m)[6..] && b == ChunkId(n)[6..];
    DecimalRoundTrip(m);
    DecimalRoundTrip(n);
  }

  /** The chunk text for a non-empty body: `f"[{label}] {body}"` when the
      label is non-empty, the body alone otherwise. */
  function Render(name: string, body: string): string {
    if name != "" then "[" + name + "] " + body else body
  }

  /** Under one label, different bodies render to different texts: the body
      can be read back from the chunk text. */
  lemma RenderInjective(name: string, a: string, b: string)
    requires Render(name, a) == Render(name, b)
    ensures a == b
  {
    var n := |name| + 3;
    if name != "" {
      assert a == Render(name, a)[n..];
      assert b == Render(name, b)[n..];
    }
  }

  /** The body a buffer flushes to: its parts joined with newlines, stripped. */
  function FlushBody(parts: seq<string>): string {
    Strip(JoinLines(parts))
  }

  /** The state `_flush_chunk` updates: the chunk list and the set of
      normalised texts seen so far. */
  datatype Store = Store(chunks: seq<Chunk>, seen: set<string>)

  /** What one call of `_flush_chunk` does to the store. */
  function FlushSpec(st: Store, parts: seq<string>, name: string): Store {
    var body := FlushBody(parts);
    if body == "" then st
    else
      var text := Render(name, body);
      var norm := NormalizeForDedup(text);
      if norm in st.seen then st
      else Store(st.chunks + [Chunk(ChunkId(|st.chunks|), text)], st.seen + {norm})
  }

  /** A flush either changes nothing (empty body, or a duplicate), or appends
      exactly one chunk, numbered by the old length, whose text is the
      rendered body, and records its normal form as seen. */
  lemma FlushOutcome(st: Store, parts: seq<string>, name: string)
    ensures var r := FlushSpec(st, parts, name);
      var body := FlushBody(parts);
      || (r == st
          && (body == "" || NormalizeForDedup(Render(name, body)) in st.seen))
      || (&& body != "" && IsStripped(body)
          && NormalizeForDedup(Render(name, body)) !in st.seen
          && |r.chunks| == |st.chunks| + 1
          && r.chunks[..|st.chunks|] == st.chunks
          && r.chunks[|st.chunks|] == Chunk(ChunkId(|st.chunks|), Render(name, body))
          && r.seen == st.seen + {NormalizeForDedup(Render(name, body))})
  {
    var r := FlushSpec(st, parts, name);
    if r != st {
      assert r.chunks[..|st.chunks|] == st.chunks;
    }
  }

  /** The store invariant: chunk `i` is called `chunk_i`, `seen` holds exactly
      the normal forms of the chunks, and no two chunks share a normal form. */
  ghost predicate StoreInv(st: Store) {
    && (forall i :: 0 <= i < |st.chunks| ==> st.chunks[i].id == ChunkId(i))
    && (forall i :: 0 <= i < |st.chunks| ==> NormalizeForDedup(st.chunks[i].text) in st.seen)
    && (forall x :: x in st.seen ==> exists i :: 0 <= i < |st.chunks| && NormalizeForDedup(st.chunks[i].text) == x)
    && (forall i, j :: 0 <= i < j < |st.chunks| ==>
          NormalizeForDedup(st.chunks[i].text) != NormalizeForDedup(st.chunks[j].text))
  }

  lemma EmptyStoreInv()
    ensures StoreInv(Store([], {}))
  {
  }

  lemma FlushKeepsInv(st: Store, parts: seq<string>, name: string)
    requires StoreInv(st)
    ensures StoreInv(FlushSpec(st, parts, name))
  {
    var r := FlushSpec(st, parts, name);
    if r != st {
      var c := r.chunks[|st.chunks|];
      assert r.chunks == st.chunks + [c];
      AppendKeepsInv(st, c);
    }
  }

  /** Appending a chunk with the next id and an unseen normal form keeps the invariant. */
  lemma AppendKeepsInv(st: Store, c: Chunk)
    requires StoreInv(st)
    requires c.id == ChunkId(|st.chunks|) && NormalizeForDedup(c.text) !in st.seen
    ensures StoreInv(Store(st.chunks + [c], st.seen + {NormalizeForDedup(c.text)}))
  {
    var r := Store(st.chunks + [c], st.seen + {NormalizeForDedup(c.text)});
    AppendKeepsCover(st, c);
    AppendKeepsSeen(st, c);
    AppendKeepsDistinct(st, c);
    forall i | 0 <= i < |r.chunks| ensures r.chunks[i].id == ChunkId(i) {
      if i < |st.chunks| {
        assert r.chunks[i] == st.chunks[i];
      }
    }
  }

  lemma AppendKeepsCover(st: Store, c: Chunk)
    requires forall i :: 0 <= i < |st.chunks| ==> NormalizeForDedup(st.chunks[i].text) in st.seen
    ensures var r := Store(st.chunks + [c], st.seen + {NormalizeForDedup(c.text)});
      forall i :: 0 <= i < |r.chunks| ==> NormalizeForDedup(r.chunks[i].text) in r.seen
  {
    var cs := st.chunks + [c];
    forall i | 0 <= i < |cs| ensures NormalizeForDedup(cs[i].text) in st.seen + {NormalizeForDedup(c.text)} {
      if i < |st.chunks| {
        assert cs[i] == st.chunks[i];
      }
    }
  }

  lemma AppendKeepsSeen(st: Store, c: Chunk)
    requires forall x :: x in st.seen ==> exists i :: 0 <= i < |st.chunks| && NormalizeForDedup(st.chunks[i].text) == x
    ensures var r := Store(st.chunks + [c], st.seen + {NormalizeForDedup(c.text)});
      forall x :: x in r.seen ==> exists i :: 0 <= i < |r.chunks| && NormalizeForDedup(r.chunks[i].text) == x
  {
    var cs := st.chunks + [c];
    forall x | x in st.seen + {NormalizeForDedup(c.text)}
      ensures exists i :: 0 <= i < |cs| && NormalizeForDedup(cs[i].text) == x
    {
      if x == NormalizeForDedup(c.text) {
        assert cs[|st.chunks|] == c;
      } else {
        var i :| 0 <= i < |st.chunks| && NormalizeForDedup(st.chunks[i].text) == x;
        assert cs[i] == st.chunks[i];
      }
    }
  }

  lemma AppendKeepsDistinct(st: Store, c: Chunk)
    requires StoreInv(st) && NormalizeForDedup(c.text) !in st.seen
    ensures var cs := st.chunks + [c];
      forall i, j :: 0 <= i < j < |cs| ==> NormalizeForDedup(cs[i].text) != NormalizeForDedup(cs[j].text)
  {
    var cs := st.chunks + [c];
    var n := |st.chunks|;
    forall i, j | 0 <= i < j < |cs|
      ensures NormalizeForDedup(cs[i].text) != NormalizeForDedup(cs[j].text)
    {
      assert cs[i] == st.chunks[i];
      if j < n {
        assert cs[j] == st.chunks[j];
      } else {
        assert cs[j] == c;
        assert NormalizeForDedup(st.chunks[i].text) in st.seen;
      }
    }
  }

  /** Ids are pairwise different under the invariant. */
  lemma IdsDistinct(st: Store)
    requires StoreInv(st)
    ensures forall i, j :: 0 <= i < j < |st.chunks| ==> st.chunks[i].id != st.chunks[j].id
  {
    forall i, j | 0 <= i < j < |st.chunks| ensures st.chunks[i].id != st.chunks[j].id {
      if st.chunks[i].id == st.chunks[j].id {
        ChunkIdInjective(i, j);
      }
    }
  }

  /** The caller's `chunks` list and `seen_normalized` set, which
      `_flush_chunk` updates in place. */
  class ChunkSink {
    var chunks: seq<Chunk>
    var seen: set<string>

    constructor ()
      ensures chunks == [] && seen == {}
    {
      chunks := [];
      seen := {};
    }

    function State(): Store
      reads this
    {
      Store(chunks, seen)
    }

    /** `_flush_chunk(chunks, seen_normalized, parts, section_label)`. */
    method FlushChunk(parts: seq<string>, name: string)
      modifies this
      ensures State() == FlushSpec(old(State()), parts, name)
    {
      var body := Strip(JoinLines(parts));
      if body == "" {
        return;
      }
      var text;
      if name != "" {
        text := "[" + name + "] " + body;
      } else {
        text := body;
      }
      var norm := NormalizeForDedup(text);
      if norm in seen {
        return;
      }
      seen := seen + {norm};
      chunks := chunks + [Chunk(ChunkId(|chunks|), text)];
    }
  }
}
