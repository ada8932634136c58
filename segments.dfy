/** `_split_into_segments`: cutting a section body into paragraphs, and a
    long paragraph further at list items and sentence boundaries. */
module Segments {
  import opened Text

  /** The paragraph length above which a paragraph is split further. */
  const LongParagraph := 500

  /** A paragraph break starts at `i`: two newlines in a row. */
  ghost predicate BreakAt(s: string, i: int) {
    0 <= i && i + 1 < |s| && s[i] == '\n' && s[i + 1] == '\n'
  }

  /** `re.split(r'\n\n+', s)`: each maximal run of two or more newlines
      separates two paragraphs. */
  function Paragraphs(s: string): (r: seq<string>)
    ensures |r| >= 1
  {
    if s == [] then [""]
    else if |s| >= 2 && s[0] == '\n' && s[1] == '\n' then
      [""] + Paragraphs(s[NewlineRun(s)..])
    else
      var rest := Paragraphs(s[1..]);
      [[s[0]] + rest[0]] + rest[1..]
  }

  /** Only newlines are dropped between paragraphs. */
  lemma {:induction false} NonSpaceParagraphs(s: string)
    ensures NonSpace(Concat(Paragraphs(s))) == NonSpace(s)
  {
    if s == [] {
      var one := [""];
      assert Concat(one) == "" by { assert one[..0] == []; }
    } else if |s| >= 2 && s[0] == '\n' && s[1] == '\n' {
      var k := NewlineRun(s);
      var rest := Paragraphs(s[k..]);
      assert Paragraphs(s) == [""] + rest;
      NonSpaceParagraphs(s[k..]);
      ConcatCons("", rest);
      assert "" + Concat(rest) == Concat(rest);
      NonSpaceAfterNewlines(s);
    } else {
      var rest := Paragraphs(s[1..]);
      NonSpaceParagraphs(s[1..]);
      ParagraphsHead(s[0], rest);
      NonSpaceAppend([s[0]], Concat(rest));
      NonSpaceFirst(s);
    }
  }

  lemma NonSpaceAfterNewlines(s: string)
    ensures NonSpace(s[NewlineRun(s)..]) == NonSpace(s)
  {
    var k := NewlineRun(s);
    assert s == s[..k] + s[k..];
    NonSpaceAppend(s[..k], s[k..]);
    NonSpaceOfSpace(s[..k]);
  }

  lemma NonSpaceFirst(s: string)
    requires s != []
    ensures NonSpace(s) == NonSpace([s[0]]) + NonSpace(s[1..])
  {
    assert [s[0]] + s[1..] == s;
    NonSpaceAppend([s[0]], s[1..]);
  }

  /** Putting a character in front of the first piece puts it in front of the concatenation. */
  lemma ParagraphsHead(c: char, rest: seq<string>)
    requires rest != []
    ensures Concat([[c] + rest[0]] + rest[1..]) == [c] + Concat(rest)
  {
    ConcatCons([c] + rest[0], rest[1..]);
    ConcatFirst(rest);
    assert ([c] + rest[0]) + Concat(rest[1..]) == [c] + (rest[0] + Concat(rest[1..]));
  }

  /** No two newlines in a row. */
  ghost predicate NoBreak(p: string) {
    forall i :: !BreakAt(p, i)
  }

  /** The first paragraph is empty or begins with the text's first character. */
  lemma ParagraphsFirst(s: string)
    ensures var r := Paragraphs(s); r[0] == [] || (s != [] && r[0][0] == s[0])
  {
  }

  lemma NoBreakCons(c: char, p: string)
    requires NoBreak(p)
    requires c == '\n' ==> p == [] || p[0] != '\n'
    ensures NoBreak([c] + p)
  {
    var q := [c] + p;
    forall i ensures !BreakAt(q, i) {
      if i >= 1 {
        assert !BreakAt(p, i - 1);
      }
    }
  }

  /** The split consumes every run of two or more newlines: no paragraph
      holds two newlines in a row. */
  lemma {:induction false} ParagraphsNoBreak(s: string)
    ensures forall k :: 0 <= k < |Paragraphs(s)| ==> NoBreak(Paragraphs(s)[k])
  {
    var r := Paragraphs(s);
    if s == [] {
      assert r == [""];
    } else if |s| >= 2 && s[0] == '\n' && s[1] == '\n' {
      var rest := Paragraphs(s[NewlineRun(s)..]);
      ParagraphsNoBreak(s[NewlineRun(s)..]);
      assert r == [""] + rest;
      forall k | 0 <= k < |r| ensures NoBreak(r[k]) {
        if k > 0 {
          assert r[k] == rest[k - 1];
        }
      }
    } else {
      var rest := Paragraphs(s[1..]);
      ParagraphsNoBreak(s[1..]);
      ParagraphsFirst(s[1..]);
      NoBreakCons(s[0], rest[0]);
      assert r == [[s[0]] + rest[0]] + rest[1..];
      forall k | 0 <= k < |r| ensures NoBreak(r[k]) {
        if k > 0 {
          assert r[k] == rest[k];
        }
      }
    }
  }

  /** A text without a blank line is a single paragraph. */
  lemma {:induction false} OneParagraph(s: string)
    requires forall i :: !BreakAt(s, i)
    ensures Paragraphs(s) == [s]
  {
    if s != [] {
      assert !BreakAt(s, 0);
      forall i ensures !BreakAt(s[1..], i) {
        assert !BreakAt(s, i + 1);
      }
      OneParagraph(s[1..]);
      assert [s[0]] + s[1..] == s;
    }
  }

  /** Length of the run of ASCII digits starting at `i`. */
  function DigitRun(s: string, i: nat): (k: nat)
    requires i <= |s|
    ensures i + k <= |s|
    decreases |s| - i
  {
    if i < |s| && IsDigit(s[i]) then 1 + DigitRun(s, i + 1) else 0
  }

  /** Length of the run of whitespace starting at `i`. */
  function SpaceRun(s: string, i: nat): (k: nat)
    requires i <= |s|
    ensures i + k <= |s|
    ensures forall j :: i <= j < i + k ==> IsSpace(s[j])
    decreases |s| - i
  {
    if i < |s| && IsSpace(s[i]) then 1 + SpaceRun(s, i + 1) else 0
  }

  /** The lookahead `(?=•|\-\s|\d+\.)` holds at `j`: a bullet, a dash and a
      space, or a number and a full stop. */
  predicate ListItemAt(s: string, j: nat) {
    && j < |s|
    && (|| s[j] == '•'
        || (s[j] == '-' && j + 1 < |s| && IsSpace(s[j + 1]))
        || (IsDigit(s[j]) && j + DigitRun(s, j) < |s| && s[j + DigitRun(s, j)] == '.'))
  }

  /** A character a piece can begin with after a split. */
  predicate IsPieceStart(c: char) {
    c == '•' || c == '-' || IsDigit(c) || IsUpperAscii(c)
  }

  /** Length of the separator the pattern
      `\n(?=•|\-\s|\d+\.)|(?<=[.!?])\s+(?=[A-Z])` matches at `i`, or 0 when it
      does not match there. The first alternative is tried first and consumes
      only the newline; the second consumes the whole whitespace run, which
      must follow a sentence end and precede an ASCII capital. */
  function SeparatorAt(s: string, i: nat): (m: nat)
    requires i < |s|
    ensures i + m < |s| || m == 0
    ensures forall j :: i <= j < i + m ==> IsSpace(s[j])
    ensures m > 0 ==> IsPieceStart(s[i + m])
  {
    if s[i] == '\n' && ListItemAt(s, i + 1) then 1
    else if 0 < i && s[i - 1] in ".!?" && 0 < SpaceRun(s, i) && i + SpaceRun(s, i) < |s|
            && IsUpperAscii(s[i + SpaceRun(s, i)]) then SpaceRun(s, i)
    else 0
  }

  // ---------------------------------------------------------------------
  // The split pattern, stated as what it matches

  predicate AllDigits(x: string) {
    forall t :: 0 <= t < |x| ==> IsDigit(x[t])
  }

  /** The lookahead `(?=•|\-\s|\d+\.)` at `j`: a bullet, a dash followed by
      whitespace, or one or more digits followed by a full stop. */
  ghost predicate ListLookahead(s: string, j: int) {
    && 0 <= j < |s|
    && (|| s[j] == '•'
        || (s[j] == '-' && j + 1 < |s| && IsSpace(s[j + 1]))
        || exists e :: j < e < |s| && s[e] == '.' && AllDigits(s[j..e]))
  }

  /** `(?<=[.!?])\s+(?=[A-Z])` matches the `m` characters at `i`: a sentence
      end before them, whitespace only, and an ASCII capital after them. Since
      a capital is not whitespace, at most one `m` fits, so backtracking in
      the greedy `\s+` changes nothing. */
  ghost predicate SentenceMatch(s: string, i: int, m: int) {
    && 0 < i && 0 < m && i + m < |s|
    && s[i - 1] in ".!?"
    && AllSpace(s[i..i + m])
    && IsUpperAscii(s[i + m])
  }

  /** The pattern matches the `m` characters at `i`. The list alternative is
      tried first and, when it applies, consumes the newline alone. */
  ghost predicate SplitMatch(s: string, i: int, m: int) {
    && 0 <= i < |s|
    && if s[i] == '\n' && ListLookahead(s, i + 1) then m == 1 else SentenceMatch(s, i, m)
  }

  lemma {:induction false} DigitRunExact(s: string, j: nat, e: nat)
    requires j <= e < |s| && AllDigits(s[j..e]) && !IsDigit(s[e])
    ensures DigitRun(s, j) == e - j
    decreases e - j
  {
    if j < e {
      assert IsDigit(s[j..e][0]);
      assert s[j + 1..e] == s[j..e][1..];
      DigitRunExact(s, j + 1, e);
    }
  }

  lemma {:induction false} SpaceRunExact(s: string, i: nat, m: nat)
    requires i + m < |s| && AllSpace(s[i..i + m]) && !IsSpace(s[i + m])
    ensures SpaceRun(s, i) == m
    decreases m
  {
    if m > 0 {
      assert IsSpace(s[i..i + m][0]);
      assert s[i + 1..i + m] == s[i..i + m][1..];
      SpaceRunExact(s, i + 1, m - 1);
    }
  }

  lemma {:induction false} DigitRunDigits(s: string, j: nat)
    requires j <= |s|
    ensures AllDigits(s[j..j + DigitRun(s, j)])
    decreases |s| - j
  {
    var k := DigitRun(s, j);
    if k > 0 {
      DigitRunDigits(s, j + 1);
      assert s[j..j + k] == [s[j]] + s[j + 1..j + k];
    }
  }

  /** The scanner's list test is the lookahead. */
  lemma ListItemIsLookahead(s: string, j: nat)
    ensures ListItemAt(s, j) <==> ListLookahead(s, j)
  {
    if j < |s| && IsDigit(s[j]) && j + DigitRun(s, j) < |s| && s[j + DigitRun(s, j)] == '.' {
      var e := j + DigitRun(s, j);
      DigitRunDigits(s, j);
    }
    if ListLookahead(s, j) && s[j] != '•' && !(s[j] == '-' && j + 1 < |s| && IsSpace(s[j + 1])) {
      var e :| j < e < |s| && s[e] == '.' && AllDigits(s[j..e]);
      DigitRunExact(s, j, e);
      assert IsDigit(s[j..e][0]);
    }
  }

  /** The scanner's sentence test is the sentence alternative, and the run it
      consumes is the one the alternative matches. */
  lemma SentenceIsMatch(s: string, i: nat, m: int)
    requires i < |s|
    ensures (&& 0 < i && s[i - 1] in ".!?" && 0 < SpaceRun(s, i) && i + SpaceRun(s, i) < |s|
             && IsUpperAscii(s[i + SpaceRun(s, i)]) && m == SpaceRun(s, i))
        <==> SentenceMatch(s, i, m)
  {
    var k := SpaceRun(s, i);
    if SentenceMatch(s, i, m) {
      SpaceRunExact(s, i, m);
    }
    if 0 < k && i + k < |s| && m == k {
      var w := s[i..i + k];
      forall t | 0 <= t < |w| ensures IsSpace(w[t]) {
        assert w[t] == s[i + t];
      }
    }
  }

  /** `SeparatorAt` finds exactly the matches of the pattern: it is `m > 0`
      at `i` if and only if the pattern matches the `m` characters at `i`. */
  lemma SeparatorAtMatches(s: string, i: nat, m: int)
    requires i < |s|
    ensures SeparatorAt(s, i) == m && m > 0 <==> SplitMatch(s, i, m)
  {
    ListItemIsLookahead(s, i + 1);
    SentenceIsMatch(s, i, m);
  }

  /** The pattern matches nowhere in `[i, q)`. */
  ghost predicate NoMatchIn(s: string, i: int, q: int) {
    forall p, m :: i <= p < q ==> !SplitMatch(s, p, m)
  }

  /** `r` is cut at the leftmost match: its first piece runs from `start` up
      to the first position `q >= i` where the pattern matches, or to the end
      when it matches nowhere; the rest of the pieces are the split of what
      follows that match. */
  ghost predicate CutAtFirstMatch(s: string, start: int, i: int, r: seq<string>)
    requires 0 <= start <= i <= |s|
  {
    && r != []
    && var q := start + |r[0]|;
    && i <= q <= |s| && r[0] == s[start..q] && NoMatchIn(s, i, q)
    && (q == |s| ==> |r| == 1)
    && (q < |s| ==> exists m :: SplitMatch(s, q, m) && r[1..] == SplitFrom(s, q + m, q + m))
  }

  /** `re.split` cuts at the leftmost match. */
  lemma {:induction false} SplitAtFirstMatch(s: string, start: nat, i: nat)
    requires start <= i <= |s|
    ensures CutAtFirstMatch(s, start, i, SplitFrom(s, start, i))
    decreases |s| - i
  {
    if i < |s| {
      if SeparatorAt(s, i) > 0 {
        CutHere(s, start, i);
      } else {
        SplitAtFirstMatch(s, start, i + 1);
        CutLater(s, start, i, SplitFrom(s, start, i + 1));
      }
    }
  }

  lemma CutHere(s: string, start: nat, i: nat)
    requires start <= i < |s| && SeparatorAt(s, i) > 0
    ensures CutAtFirstMatch(s, start, i, SplitFrom(s, start, i))
  {
    var m := SeparatorAt(s, i);
    SeparatorAtMatches(s, i, m);
    SplitAtSeparator(s, start, i, i + m);
    CutAfter(s, start, i, m, SplitFrom(s, start, i));
  }

  lemma CutAfter(s: string, start: nat, i: nat, m: int, r: seq<string>)
    requires start <= i < |s| && SplitMatch(s, i, m)
    requires r == [s[start..i]] + SplitFrom(s, i + m, i + m)
    ensures CutAtFirstMatch(s, start, i, r)
  {
    assert r[1..] == SplitFrom(s, i + m, i + m);
  }

  lemma CutLater(s: string, start: nat, i: nat, r: seq<string>)
    requires start <= i < |s| && SeparatorAt(s, i) == 0
    requires CutAtFirstMatch(s, start, i + 1, r) && r == SplitFrom(s, start, i + 1)
    ensures CutAtFirstMatch(s, start, i, SplitFrom(s, start, i))
  {
    NoMatchAt(s, i);
    SplitSkip(s, start, i);
    CutEarlier(s, start, i, r);
  }

  lemma CutEarlier(s: string, start: nat, i: nat, r: seq<string>)
    requires start <= i < |s| && NoMatchIn(s, i, i + 1)
    requires CutAtFirstMatch(s, start, i + 1, r)
    ensures CutAtFirstMatch(s, start, i, r)
  {
    var q := start + |r[0]|;
    forall p, m | i <= p < q ensures !SplitMatch(s, p, m) {
      if p > i {
        assert i + 1 <= p < q;
      }
    }
  }

  lemma SplitSkip(s: string, start: nat, i: nat)
    requires start <= i < |s| && SeparatorAt(s, i) == 0
    ensures SplitFrom(s, start, i) == SplitFrom(s, start, i + 1)
  {
  }

  lemma NoMatchAt(s: string, i: nat)
    requires i < |s| && SeparatorAt(s, i) == 0
    ensures NoMatchIn(s, i, i + 1)
  {
    forall p, m | i <= p < i + 1 ensures !SplitMatch(s, p, m) {
      SeparatorAtMatches(s, i, m);
    }
  }

  /** `re.split` with that pattern, scanning from `i`; the current piece began
      at `start`. */
  function SplitFrom(s: string, start: nat, i: nat): (r: seq<string>)
    requires start <= i <= |s|
    ensures |r| >= 1
    decreases |s| - i
  {
    if i == |s| then [s[start..]]
    else if SeparatorAt(s, i) > 0 then [s[start..i]] + SplitFrom(s, i + SeparatorAt(s, i), i + SeparatorAt(s, i))
    else SplitFrom(s, start, i + 1)
  }

  function SplitLong(s: string): seq<string> {
    SplitFrom(s, 0, 0)
  }

  /** The first piece runs from `start` to at least `i`. */
  lemma {:induction false} FirstPiece(s: string, start: nat, i: nat)
    requires start <= i <= |s|
    ensures var p := SplitFrom(s, start, i)[0];
      i - start <= |p| && start + |p| <= |s| && p == s[start..start + |p|]
    decreases |s| - i
  {
    if i < |s| && SeparatorAt(s, i) == 0 {
      FirstPiece(s, start, i + 1);
    }
  }

  /** Every piece after the first is non-empty and begins with a list marker
      or a capital letter. */
  ghost predicate LaterPiecesStart(r: seq<string>) {
    forall k :: 1 <= k < |r| ==> r[k] != [] && IsPieceStart(r[k][0])
  }

  lemma LaterPiecesStartCons(x: string, rest: seq<string>)
    requires rest != [] && rest[0] != [] && IsPieceStart(rest[0][0])
    requires LaterPiecesStart(rest)
    ensures LaterPiecesStart([x] + rest)
  {
    var r := [x] + rest;
    forall k | 1 <= k < |r| ensures r[k] != [] && IsPieceStart(r[k][0]) {
      assert r[k] == rest[k - 1];
    }
  }

  /** A piece that starts right after a separator is not empty and keeps its
      first character. */
  lemma PieceAfterSeparator(s: string, i: nat)
    requires i < |s| && SeparatorAt(s, i) > 0
    ensures var e := i + SeparatorAt(s, i);
      SplitFrom(s, e, e)[0] != [] && IsPieceStart(SplitFrom(s, e, e)[0][0])
  {
    var e := i + SeparatorAt(s, i);
    NoSeparatorAtPieceStart(s, e);
    FirstPieceKeepsStart(s, e);
  }

  lemma FirstPieceKeepsStart(s: string, e: nat)
    requires e < |s| && SeparatorAt(s, e) == 0
    ensures SplitFrom(s, e, e)[0] != [] && SplitFrom(s, e, e)[0][0] == s[e]
  {
    assert SplitFrom(s, e, e) == SplitFrom(s, e, e + 1);
    FirstPiece(s, e, e + 1);
    var p := SplitFrom(s, e, e + 1)[0];
    assert p[0] == s[e..e + |p|][0];
  }

  /** No separator starts at a list marker or a capital letter. */
  lemma NoSeparatorAtPieceStart(s: string, e: nat)
    requires e < |s| && IsPieceStart(s[e])
    ensures SeparatorAt(s, e) == 0
  {
    assert !IsSpace(s[e]);
    assert SpaceRun(s, e) == 0;
  }

  /** After a split, each piece begins where a separator ended. */
  lemma {:induction false} PiecesStart(s: string, start: nat, i: nat)
    requires start <= i <= |s|
    ensures LaterPiecesStart(SplitFrom(s, start, i))
    decreases |s| - i
  {
    if i < |s| {
      var m := SeparatorAt(s, i);
      if m > 0 {
        var e := i + m;
        assert SplitFrom(s, start, i) == [s[start..i]] + SplitFrom(s, e, e);
        PiecesStart(s, e, e);
        PieceAfterSeparator(s, i);
        LaterPiecesStartCons(s[start..i], SplitFrom(s, e, e));
      } else {
        PiecesStart(s, start, i + 1);
      }
    }
  }

  /** Only whitespace separators are dropped by the split. */
  lemma {:induction false} NonSpaceSplitFrom(s: string, start: nat, i: nat)
    requires start <= i <= |s|
    ensures NonSpace(Concat(SplitFrom(s, start, i))) == NonSpace(s[start..])
    decreases |s| - i
  {
    if i == |s| {
      var one := [s[start..]];
      assert SplitFrom(s, start, i) == one;
      assert Concat(one) == s[start..] by { assert one[..0] == []; }
    } else if SeparatorAt(s, i) > 0 {
      var e := i + SeparatorAt(s, i);
      NonSpaceSplitFrom(s, e, e);
      NonSpaceSplitAtSeparator(s, start, i, e);
    } else {
      assert SplitFrom(s, start, i) == SplitFrom(s, start, i + 1);
      NonSpaceSplitFrom(s, start, i + 1);
    }
  }

  /** The split step at a separator, given the text of the rest is kept. */
  lemma NonSpaceSplitAtSeparator(s: string, start: nat, i: nat, e: nat)
    requires start <= i < |s| && SeparatorAt(s, i) > 0 && e == i + SeparatorAt(s, i)
    requires NonSpace(Concat(SplitFrom(s, e, e))) == NonSpace(s[e..])
    ensures NonSpace(Concat(SplitFrom(s, start, i))) == NonSpace(s[start..])
  {
    var head, rest := s[start..i], SplitFrom(s, e, e);
    SplitAtSeparator(s, start, i, e);
    ConcatCons(head, rest);
    NonSpaceAppend(head, Concat(rest));
    SeparatorKeepsText(s, start, i, e);
  }

  lemma SplitAtSeparator(s: string, start: nat, i: nat, e: nat)
    requires start <= i < |s| && SeparatorAt(s, i) > 0 && e == i + SeparatorAt(s, i)
    ensures SplitFrom(s, start, i) == [s[start..i]] + SplitFrom(s, e, e)
  {
  }

  /** Dropping a separator drops whitespace only. */
  lemma SeparatorKeepsText(s: string, start: nat, i: nat, e: nat)
    requires start <= i < |s| && e == i + SeparatorAt(s, i)
    ensures NonSpace(s[start..]) == NonSpace(s[start..i]) + NonSpace(s[e..])
  {
    SeparatorIsSpace(s, i);
    NonSpaceSkipSpace(s, start, i, e);
  }

  lemma SeparatorIsSpace(s: string, i: nat)
    requires i < |s|
    ensures i + SeparatorAt(s, i) <= |s|
    ensures AllSpace(s[i..i + SeparatorAt(s, i)])
  {
    var e := i + SeparatorAt(s, i);
    forall j | 0 <= j < e - i ensures IsSpace(s[i..e][j]) {
      assert s[i..e][j] == s[i + j];
    }
  }

  /** The segments one paragraph contributes: none when it is blank, itself
      (stripped) when it is at most `LongParagraph` long, else its split
      pieces, stripped, without the empty ones. */
  function ParagraphSegments(para: string): seq<string> {
    var p := Strip(para);
    if p == "" then []
    else if |p| <= LongParagraph then [p]
    else StrippedNonEmpty(SplitLong(p))
  }

  /** The segments of a run of paragraphs, in order. */
  function SegmentsOfParagraphs(paras: seq<string>): seq<string> {
    if paras == [] then []
    else SegmentsOfParagraphs(paras[..|paras| - 1]) + ParagraphSegments(paras[|paras| - 1])
  }

  /** What `_split_into_segments(block)` returns. */
  function SegmentsOf(block: string): seq<string> {
    SegmentsOfParagraphs(Paragraphs(block))
  }

  /** Every segment is non-empty and stripped. */
  ghost predicate AllSegments(segs: seq<string>) {
    forall k :: 0 <= k < |segs| ==> segs[k] != "" && IsStripped(segs[k])
  }

  lemma ParagraphSegmentsOk(para: string)
    ensures AllSegments(ParagraphSegments(para))
  {
  }

  lemma {:induction false} SegmentsOfParagraphsOk(paras: seq<string>)
    ensures AllSegments(SegmentsOfParagraphs(paras))
  {
    if paras != [] {
      var init, last := paras[..|paras| - 1], paras[|paras| - 1];
      SegmentsOfParagraphsOk(init);
      ParagraphSegmentsOk(last);
      AllSegmentsAppend(SegmentsOfParagraphs(init), ParagraphSegments(last));
    }
  }

  lemma AllSegmentsAppend(a: seq<string>, b: seq<string>)
    requires AllSegments(a) && AllSegments(b)
    ensures AllSegments(a + b)
  {
    forall k | 0 <= k < |a + b| ensures (a + b)[k] != "" && IsStripped((a + b)[k]) {
      if k >= |a| {
        assert (a + b)[k] == b[k - |a|];
      } else {
        assert (a + b)[k] == a[k];
      }
    }
  }

  /** A paragraph keeps all of its non-whitespace text. */
  lemma NonSpaceParagraphSegments(para: string)
    ensures NonSpace(Concat(ParagraphSegments(para))) == NonSpace(para)
  {
    var p := Strip(para);
    NonSpaceStrip(para);
    if p == "" {
      StripEmpty(para);
      NonSpaceOfSpace(para);
    } else if |p| <= LongParagraph {
      var one: seq<string> := [p];
      assert Concat(one) == p by { assert one[..0] == []; }
    } else {
      NonSpaceStrippedNonEmpty(SplitLong(p));
      NonSpaceSplitFrom(p, 0, 0);
      assert p[0..] == p;
    }
  }

  lemma {:induction false} NonSpaceSegmentsOfParagraphs(paras: seq<string>)
    ensures NonSpace(Concat(SegmentsOfParagraphs(paras))) == NonSpace(Concat(paras))
  {
    if paras != [] {
      var init, last := paras[..|paras| - 1], paras[|paras| - 1];
      var a, b := SegmentsOfParagraphs(init), ParagraphSegments(last);
      NonSpaceSegmentsOfParagraphs(init);
      NonSpaceParagraphSegments(last);
      assert SegmentsOfParagraphs(paras) == a + b;
      ConcatAppend(a, b);
      NonSpaceAppend(Concat(a), Concat(b));
      NonSpaceAppend(Concat(init), last);
    }
  }

  /** Segmenting drops whitespace only: the segments carry, in order, every
      non-whitespace character of the block. */
  lemma SegmentsKeepText(block: string)
    ensures NonSpace(Concat(SegmentsOf(block))) == NonSpace(block)
  {
    NonSpaceSegmentsOfParagraphs(Paragraphs(block));
    NonSpaceParagraphs(block);
  }

  /** A block without blank lines whose stripped text is non-empty and at most
      `LongParagraph` characters is one segment: the stripped block. */
  lemma ShortBlockIsOneSegment(block: string)
    requires forall i :: !BreakAt(block, i)
    requires Strip(block) != "" && |Strip(block)| <= LongParagraph
    ensures SegmentsOf(block) == [Strip(block)]
  {
    OneParagraph(block);
    var paras: seq<string> := [block];
    assert paras[..0] == [];
    assert SegmentsOfParagraphs(paras) == SegmentsOfParagraphs([]) + ParagraphSegments(block);
  }

  /** The segments of the first paragraphs come first. */
  lemma {:induction false} SegmentsOfParagraphsPrefix(paras: seq<string>, i: nat)
    requires i <= |paras|
    ensures SegmentsOfParagraphs(paras[..i]) <= SegmentsOfParagraphs(paras)
    decreases |paras| - i
  {
    if i < |paras| {
      SegmentsOfParagraphsPrefix(paras, i + 1);
      SegmentsOfParagraphsStep(paras, i);
    } else {
      assert paras[..i] == paras;
    }
  }

  /** Every short, non-blank paragraph of a block is emitted whole, stripped,
      right after the segments of the paragraphs before it. */
  lemma ShortParagraphIsSegment(block: string, k: nat)
    requires k < |Paragraphs(block)|
    requires var p := Strip(Paragraphs(block)[k]); p != "" && |p| <= LongParagraph
    ensures var paras := Paragraphs(block);
      var before := SegmentsOfParagraphs(paras[..k]);
      && |before| < |SegmentsOf(block)|
      && SegmentsOf(block)[..|before|] == before
      && SegmentsOf(block)[|before|] == Strip(paras[k])
  {
    ShortParagraphAt(Paragraphs(block), k);
  }

  lemma ShortParagraphAt(paras: seq<string>, k: nat)
    requires k < |paras| && Strip(paras[k]) != "" && |Strip(paras[k])| <= LongParagraph
    ensures var before := SegmentsOfParagraphs(paras[..k]);
      && |before| < |SegmentsOfParagraphs(paras)|
      && SegmentsOfParagraphs(paras)[..|before|] == before
      && SegmentsOfParagraphs(paras)[|before|] == Strip(paras[k])
  {
    SegmentsOfParagraphsStep(paras, k);
    SegmentsOfParagraphsPrefix(paras, k + 1);
    var upto := SegmentsOfParagraphs(paras[..k + 1]);
    assert upto == SegmentsOfParagraphs(paras[..k]) + [Strip(paras[k])];
  }

  lemma SegmentsOfParagraphsStep(paras: seq<string>, i: nat)
    requires i < |paras|
    ensures SegmentsOfParagraphs(paras[..i + 1])
         == SegmentsOfParagraphs(paras[..i]) + ParagraphSegments(paras[i])
  {
    assert paras[..i + 1][..i] == paras[..i];
  }

  /** The inner loop of `_split_into_segments` over the pieces of a long
      paragraph: strip each, keep the non-empty ones. */
  method KeepStrippedParts(parts: seq<string>) returns (kept: seq<string>)
    ensures kept == StrippedNonEmpty(parts)
  {
    kept := [];
    var j := 0;
    while j < |parts|
      invariant 0 <= j <= |parts|
      invariant kept == StrippedNonEmpty(parts[..j])
    {
      var part := Strip(parts[j]);
      StrippedNonEmptyStep(parts, j);
      if part != "" {
        kept := kept + [part];
      }
      j := j + 1;
    }
    assert parts[..j] == parts;
  }

  /** `_split_into_segments(block)`. */
  method SplitIntoSegments(block: string) returns (segments: seq<string>)
    ensures segments == SegmentsOf(block)
    ensures AllSegments(segments)
  {
    var paragraphs := Paragraphs(block);
    segments := [];
    var i := 0;
    while i < |paragraphs|
      invariant 0 <= i <= |paragraphs|
      invariant segments == SegmentsOfParagraphs(paragraphs[..i])
    {
      var para := Strip(paragraphs[i]);
      SegmentsOfParagraphsStep(paragraphs, i);
      if para != "" {
        if |para| <= LongParagraph {
          segments := segments + [para];
        } else {
          var kept := KeepStrippedParts(SplitLong(para));
          segments := segments + kept;
        }
      }
      i := i + 1;
    }
    assert paragraphs[..i] == paragraphs;
    SegmentsOfParagraphsOk(paragraphs);
  }
}
