/** `_normalize_for_dedup`: the key under which two chunks of one run count
    as duplicates. */
module Dedup {
  import opened Text

  /** `re.sub(r'\s+', ' ', s)`: every maximal run of whitespace becomes one space. */
  function CollapseWhitespace(s: string): (r: string)
    ensures |r| <= |s|
    ensures s != [] ==> r != [] && r[0] == (if IsSpace(s[0]) then ' ' else s[0])
  {
    if s == [] then []
    else if IsSpace(s[0]) then " " + CollapseWhitespace(TrimStart(s[1..]))
    else [s[0]] + CollapseWhitespace(s[1..])
  }

  /** The only whitespace is single spaces. */
  ghost predicate SingleSpaced(s: string) {
    && (forall i :: 0 <= i < |s| && IsSpace(s[i]) ==> s[i] == ' ')
    && (forall i, j :: 0 <= i < j < |s| && j == i + 1 ==> !(IsSpace(s[i]) && IsSpace(s[j])))
  }

  /** What a dedup key looks like: stripped, single-spaced, no upper case letter. */
  ghost predicate IsNormalized(s: string) {
    && IsStripped(s)
    && SingleSpaced(s)
    && (forall i :: 0 <= i < |s| ==> !IsUpperAscii(s[i]))
  }

  /** `re.sub(r'\s+', ' ', text).strip().lower()`. */
  function NormalizeForDedup(s: string): string {
    Lower(Strip(CollapseWhitespace(s)))
  }

  lemma {:induction false} CollapseSingleSpaced(s: string)
    ensures SingleSpaced(CollapseWhitespace(s))
  {
    if s != [] {
      if IsSpace(s[0]) {
        var rest := TrimStart(s[1..]);
        CollapseSingleSpaced(rest);
        SingleSpacedCons(' ', CollapseWhitespace(rest));
      } else {
        CollapseSingleSpaced(s[1..]);
        SingleSpacedCons(s[0], CollapseWhitespace(s[1..]));
      }
    }
  }

  /** Putting a character in front keeps a string single-spaced, unless it
      is other whitespace than a space or it makes a run of two. */
  lemma SingleSpacedCons(c: char, tail: string)
    requires SingleSpaced(tail)
    requires IsSpace(c) ==> c == ' ' && (tail == [] || !IsSpace(tail[0]))
    ensures SingleSpaced([c] + tail)
  {
    var r := [c] + tail;
    forall i | 0 <= i < |r| && IsSpace(r[i]) ensures r[i] == ' ' {
      if i > 0 {
        assert r[i] == tail[i - 1];
      }
    }
    forall i, j | 0 <= i < j < |r| && j == i + 1 ensures !(IsSpace(r[i]) && IsSpace(r[j])) {
      assert r[j] == tail[j - 1];
      if i > 0 {
        assert r[i] == tail[i - 1];
      }
    }
  }

  /** Collapsing whitespace runs keeps every other character, in order. */
  lemma {:induction false} NonSpaceCollapse(s: string)
    ensures NonSpace(CollapseWhitespace(s)) == NonSpace(s)
  {
    if s != [] {
      if IsSpace(s[0]) {
        var t := TrimStart(s[1..]);
        NonSpaceCollapse(t);
        assert s[1..] == s[1..][..|s| - 1 - |t|] + t;
        NonSpaceAppend(s[1..][..|s| - 1 - |t|], t);
        NonSpaceOfSpace(s[1..][..|s| - 1 - |t|]);
        NonSpaceAppend(" ", CollapseWhitespace(t));
      } else {
        NonSpaceCollapse(s[1..]);
        NonSpaceAppend([s[0]], CollapseWhitespace(s[1..]));
      }
    }
  }

  /** A single-spaced string is left alone by the collapse. */
  lemma {:induction false} CollapseSingleSpacedFixed(s: string)
    requires SingleSpaced(s)
    ensures CollapseWhitespace(s) == s
  {
    if s != [] {
      SingleSpacedTail(s);
      CollapseSingleSpacedFixed(s[1..]);
      if IsSpace(s[0]) {
        SingleSpacedNoRun(s);
        assert CollapseWhitespace(s) == [' '] + s[1..];
      } else {
        assert CollapseWhitespace(s) == [s[0]] + s[1..];
      }
    }
  }

  lemma SingleSpacedTail(s: string)
    requires s != [] && SingleSpaced(s)
    ensures SingleSpaced(s[1..])
  {
    var t := s[1..];
    forall i, j | 0 <= i < j < |t| && j == i + 1 ensures !(IsSpace(t[i]) && IsSpace(t[j])) {
      assert t[i] == s[i + 1] && t[j] == s[j + 1];
    }
  }

  /** After a space of a single-spaced string no whitespace follows, so the
      collapse has nothing to trim there. */
  lemma SingleSpacedNoRun(s: string)
    requires s != [] && SingleSpaced(s) && IsSpace(s[0])
    ensures TrimStart(s[1..]) == s[1..]
  {
    if |s| > 1 {
      assert !(IsSpace(s[0]) && IsSpace(s[1]));
    }
  }

  lemma LowerKeepsShape(s: string)
    requires IsStripped(s) && SingleSpaced(s)
    ensures IsNormalized(Lower(s))
  {
    var r := Lower(s);
    assert forall i :: 0 <= i < |s| ==> (IsSpace(r[i]) <==> IsSpace(s[i])) && (IsSpace(s[i]) ==> r[i] == s[i]);
  }

  lemma StripSingleSpaced(c: string)
    requires SingleSpaced(c)
    ensures SingleSpaced(Strip(c))
  {
    var t, k := Strip(c), |c| - |TrimStart(c)|;
    StripSlice(c);
    forall i | 0 <= i < |t| && IsSpace(t[i]) ensures t[i] == ' ' {
      assert t[i] == c[k + i];
    }
  }

  /** The dedup key is stripped, single-spaced and lower case. */
  lemma NormalizeShape(s: string)
    ensures IsNormalized(NormalizeForDedup(s))
  {
    CollapseSingleSpaced(s);
    StripSingleSpaced(CollapseWhitespace(s));
    LowerKeepsShape(Strip(CollapseWhitespace(s)));
  }

  /** A key normalises to itself. */
  lemma NormalizeFixesKey(s: string)
    requires IsNormalized(s)
    ensures NormalizeForDedup(s) == s
  {
    CollapseSingleSpacedFixed(s);
    StripStripped(s);
    assert Lower(s) == s;
  }

  /** Normalising is idempotent. */
  lemma NormalizeIdempotent(s: string)
    ensures NormalizeForDedup(NormalizeForDedup(s)) == NormalizeForDedup(s)
  {
    NormalizeShape(s);
    NormalizeFixesKey(NormalizeForDedup(s));
  }

  lemma {:induction false} NonSpaceLower(s: string)
    ensures NonSpace(Lower(s)) == Lower(NonSpace(s))
  {
    if s != [] {
      NonSpaceLower(s[1..]);
      assert Lower(s) == [LowerChar(s[0])] + Lower(s[1..]);
      assert IsSpace(LowerChar(s[0])) == IsSpace(s[0]);
      var head := if IsSpace(s[0]) then [] else [s[0]];
      assert Lower(head + NonSpace(s[1..])) == Lower(head) + Lower(NonSpace(s[1..]));
    }
  }

  /** Normalising changes only whitespace and letter case: the non-whitespace
      characters of the key are those of the text, lower-cased. */
  lemma NormalizeKeepsText(s: string)
    ensures NonSpace(NormalizeForDedup(s)) == Lower(NonSpace(s))
  {
    var c := CollapseWhitespace(s);
    NonSpaceCollapse(s);
    NonSpaceStrip(c);
    NonSpaceLower(Strip(c));
  }
}
