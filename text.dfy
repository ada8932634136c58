/** The Python `str` operations the chunker relies on: whitespace, `strip`,
    `split('\n')`, `'\n'.join`, `lower` and `title`.

    Whitespace is exactly the set of characters for which Python's
    `str.isspace()` holds; the same set is what `\s` matches in a `re` pattern
    over `str`, so one predicate serves `strip()` and every regular expression.
    Case mapping (`lower`, `title`) is modelled on ASCII letters only. */
module Text {

  /** Python's `str.isspace()`: ASCII 9-13 and 28-32, plus the Unicode spaces. */
  predicate IsSpace(c: char) {
    ('\t' <= c <= '\r') || ('\U{1C}' <= c <= ' ') || c == '\U{85}' || c == '\U{A0}'
    || c == '\U{1680}' || ('\U{2000}' <= c <= '\U{200A}') || c == '\U{2028}'
    || c == '\U{2029}' || c == '\U{202F}' || c == '\U{205F}' || c == '\U{3000}'
  }

  predicate AllSpace(s: string) {
    forall i :: 0 <= i < |s| ==> IsSpace(s[i])
  }

  /** Neither end of `s` is whitespace: what `strip()` returns. */
  predicate IsStripped(s: string) {
    s == [] || (!IsSpace(s[0]) && !IsSpace(s[|s| - 1]))
  }

  /** `s.lstrip()`: the suffix of `s` after its leading whitespace. */
  function TrimStart(s: string): (r: string)
    ensures |r| <= |s| && r == s[|s| - |r|..]
    ensures r == [] || !IsSpace(r[0])
    ensures AllSpace(s[..|s| - |r|])
  {
    if s != [] && IsSpace(s[0]) then
      var r := TrimStart(s[1..]);
      assert s[..|s| - |r|] == [s[0]] + s[1..][..|s| - 1 - |r|];
      r
    else s
  }

  /** `s.rstrip()`: the prefix of `s` before its trailing whitespace. */
  function TrimEnd(s: string): (r: string)
    ensures |r| <= |s| && r == s[..|r|]
    ensures r == [] || !IsSpace(r[|r| - 1])
    ensures AllSpace(s[|r|..])
  {
    if s != [] && IsSpace(s[|s| - 1]) then
      var r := TrimEnd(s[..|s| - 1]);
      assert s[..|s| - 1][..|r|] == s[..|r|];
      assert s[|r|..] == s[..|s| - 1][|r|..] + [s[|s| - 1]];
      r
    else s
  }

  /** `s.strip()`: leading whitespace off, then trailing whitespace off. */
  function Strip(s: string): (r: string)
    ensures IsStripped(r) && |r| <= |s|
  {
    if s != [] && IsSpace(s[0]) then Strip(s[1..]) else TrimEnd(s)
  }

  lemma {:induction false} StripIsTrim(s: string)
    ensures Strip(s) == TrimEnd(TrimStart(s))
  {
    if s != [] && IsSpace(s[0]) {
      StripIsTrim(s[1..]);
    }
  }

  /** `strip()` gives the empty string exactly on all-whitespace input. */
  lemma {:induction false} StripEmpty(s: string)
    ensures Strip(s) == [] <==> AllSpace(s)
  {
    if s != [] && IsSpace(s[0]) {
      StripEmpty(s[1..]);
      assert AllSpace(s) <==> AllSpace(s[1..]) by {
        assert forall i :: 0 < i < |s| ==> s[i] == s[1..][i - 1];
      }
    } else if s != [] {
      assert !AllSpace(s[0..]);
    }
  }

  /** The strip of `s` is the slice of `s` between its leading and trailing whitespace. */
  lemma StripSlice(s: string)
    ensures var t, k := Strip(s), |s| - |TrimStart(s)|;
      k + |t| <= |s| && forall i :: 0 <= i < |t| ==> t[i] == s[k + i]
  {
    StripIsTrim(s);
  }

  lemma StripKeepsChars(s: string)
    ensures forall c :: c in Strip(s) ==> c in s
  {
    StripSlice(s);
  }

  /** The characters of `s` that are not whitespace, in order: what survives
      any reshuffling of whitespace. */
  function NonSpace(s: string): (r: string)
    ensures |r| <= |s|
    ensures forall i :: 0 <= i < |r| ==> !IsSpace(r[i])
  {
    if s == [] then [] else (if IsSpace(s[0]) then [] else [s[0]]) + NonSpace(s[1..])
  }

  lemma {:induction false} NonSpaceAppend(a: string, b: string)
    ensures NonSpace(a + b) == NonSpace(a) + NonSpace(b)
  {
    if a == [] {
      assert a + b == b;
    } else {
      assert (a + b)[1..] == a[1..] + b;
      NonSpaceAppend(a[1..], b);
    }
  }

  /** Dropping the whitespace run `s[b..c]` from `s[a..]` keeps its text. */
  lemma NonSpaceSkipSpace(s: string, a: nat, b: nat, c: nat)
    requires a <= b <= c <= |s| && AllSpace(s[b..c])
    ensures NonSpace(s[a..]) == NonSpace(s[a..b]) + NonSpace(s[c..])
  {
    NonSpaceSuffix(s, a, b);
    NonSpaceSuffix(s, b, c);
    NonSpaceOfSpace(s[b..c]);
  }

  /** Cutting a string in two cuts its non-whitespace text in two. */
  lemma NonSpaceSuffix(s: string, a: nat, b: nat)
    requires a <= b <= |s|
    ensures NonSpace(s[a..]) == NonSpace(s[a..b]) + NonSpace(s[b..])
  {
    assert s[a..] == s[a..b] + s[b..];
    NonSpaceAppend(s[a..b], s[b..]);
  }

  /** A whitespace prefix adds nothing to the non-whitespace text. */
  lemma NonSpaceSpacePrefix(a: string, b: string)
    requires AllSpace(a)
    ensures NonSpace(a + b) == NonSpace(b)
  {
    NonSpaceAppend(a, b);
    NonSpaceOfSpace(a);
  }

  lemma {:induction false} NonSpaceOfSpace(s: string)
    requires AllSpace(s)
    ensures NonSpace(s) == []
  {
    if s != [] {
      NonSpaceOfSpace(s[1..]);
    }
  }

  /** Stripping removes whitespace only. */
  lemma {:induction false} NonSpaceStrip(s: string)
    ensures NonSpace(Strip(s)) == NonSpace(s)
  {
    if s != [] && IsSpace(s[0]) {
      NonSpaceStrip(s[1..]);
    } else {
      var r := TrimEnd(s);
      assert s == r + s[|r|..];
      NonSpaceAppend(r, s[|r|..]);
      NonSpaceOfSpace(s[|r|..]);
    }
  }

  /** A stripped string is its own strip. */
  lemma StripStripped(s: string)
    requires IsStripped(s)
    ensures Strip(s) == s
  {
  }

  /** `s.split('\n')`: always at least one piece, none holding a newline. */
  function Lines(s: string): (r: seq<string>)
    ensures |r| >= 1
    ensures forall i :: 0 <= i < |r| ==> '\n' !in r[i]
  {
    if s == [] then [""]
    else if s[0] == '\n' then [""] + Lines(s[1..])
    else
      var rest := Lines(s[1..]);
      [[s[0]] + rest[0]] + rest[1..]
  }

  /** `'\n'.join(parts)`. */
  function JoinLines(parts: seq<string>): string {
    if parts == [] then ""
    else if |parts| == 1 then parts[0]
    else JoinLines(parts[..|parts| - 1]) + "\n" + parts[|parts| - 1]
  }

  lemma {:induction false} JoinLinesCons(a: string, parts: seq<string>)
    requires parts != []
    ensures JoinLines([a] + parts) == a + "\n" + JoinLines(parts)
  {
    var ps := [a] + parts;
    if |parts| > 1 {
      assert ps[..|ps| - 1] == [a] + parts[..|parts| - 1];
      JoinLinesCons(a, parts[..|parts| - 1]);
    }
  }

  /** Joining the lines of `s` gives `s` back. */
  lemma {:induction false} JoinLinesOfLines(s: string)
    ensures JoinLines(Lines(s)) == s
  {
    if s != [] {
      var rest := Lines(s[1..]);
      JoinLinesOfLines(s[1..]);
      if s[0] == '\n' {
        JoinLinesCons("", rest);
      } else {
        JoinLinesGlue(s[0], rest);
        assert s == [s[0]] + s[1..];
      }
    }
  }

  /** Gluing a character to the front of the first line glues it to the front
      of the join. */
  lemma JoinLinesGlue(c: char, rest: seq<string>)
    requires rest != []
    ensures JoinLines([[c] + rest[0]] + rest[1..]) == [c] + JoinLines(rest)
  {
    if |rest| > 1 {
      JoinLinesCons(rest[0], rest[1..]);
      JoinLinesCons([c] + rest[0], rest[1..]);
      assert [rest[0]] + rest[1..] == rest;
    }
  }

  /** Splitting a join of newline-free lines gives the lines back. */
  lemma {:induction false} LinesOfJoinLines(parts: seq<string>)
    requires parts != []
    requires forall i :: 0 <= i < |parts| ==> '\n' !in parts[i]
    ensures Lines(JoinLines(parts)) == parts
  {
    if |parts| == 1 {
      LinesOfLine(parts[0]);
    } else {
      LinesOfJoinLines(parts[1..]);
      JoinLinesCons(parts[0], parts[1..]);
      LinesAfterLine(parts[0], JoinLines(parts[1..]));
      assert [parts[0]] + parts[1..] == parts;
    }
  }

  lemma {:induction false} LinesOfLine(a: string)
    requires '\n' !in a
    ensures Lines(a) == [a]
  {
    if a != [] {
      assert a[0] in a && '\n' !in a[1..];
      LinesOfLine(a[1..]);
      assert [a[0]] + a[1..] == a;
    }
  }

  lemma {:induction false} LinesAfterLine(a: string, b: string)
    requires '\n' !in a
    ensures Lines(a + "\n" + b) == [a] + Lines(b)
  {
    if a == [] {
      assert a + "\n" + b == "\n" + b;
      assert ("\n" + b)[1..] == b;
    } else {
      assert a[0] in a && '\n' !in a[1..];
      assert (a + "\n" + b)[1..] == a[1..] + "\n" + b;
      LinesAfterLine(a[1..], b);
      assert [a[0]] + a[1..] == a;
    }
  }

  /** `"".join(parts)`: the parts back to back. */
  function Concat(parts: seq<string>): string {
    if parts == [] then "" else Concat(parts[..|parts| - 1]) + parts[|parts| - 1]
  }

  lemma {:induction false} ConcatAppend(a: seq<string>, b: seq<string>)
    ensures Concat(a + b) == Concat(a) + Concat(b)
  {
    if b != [] {
      assert (a + b)[..|a + b| - 1] == a + b[..|b| - 1];
      ConcatAppend(a, b[..|b| - 1]);
    } else {
      assert a + b == a;
    }
  }

  /** Joining with newlines differs from plain concatenation by whitespace only. */
  lemma {:induction false} NonSpaceJoinLines(parts: seq<string>)
    ensures NonSpace(JoinLines(parts)) == NonSpace(Concat(parts))
  {
    if |parts| == 1 {
      assert parts[..0] == [];
      assert Concat(parts) == parts[0];
    } else if |parts| > 1 {
      var init, last := parts[..|parts| - 1], parts[|parts| - 1];
      NonSpaceJoinLines(init);
      NonSpaceAppend(JoinLines(init) + "\n", last);
      NonSpaceAppend(JoinLines(init), "\n");
      NonSpaceAppend(Concat(init), last);
    }
  }

  lemma ConcatCons(a: string, parts: seq<string>)
    ensures Concat([a] + parts) == a + Concat(parts)
  {
    ConcatAppend([a], parts);
    assert [a][..0] == [];
  }

  /** Length of the run of newlines at the start of `s`. */
  function NewlineRun(s: string): (k: nat)
    ensures k <= |s|
    ensures forall i :: 0 <= i < k ==> s[i] == '\n'
    ensures k == |s| || s[k] != '\n'
  {
    if s != [] && s[0] == '\n' then 1 + NewlineRun(s[1..]) else 0
  }

  lemma ConcatFirst(parts: seq<string>)
    requires parts != []
    ensures Concat(parts) == parts[0] + Concat(parts[1..])
  {
    ConcatCons(parts[0], parts[1..]);
    assert [parts[0]] + parts[1..] == parts;
  }

  /** Total length of the parts. */
  function SumLen(parts: seq<string>): nat {
    if parts == [] then 0 else SumLen(parts[..|parts| - 1]) + |parts[|parts| - 1]|
  }

  /** A newline join is as long as its parts plus one separator between each two. */
  lemma {:induction false} JoinLinesLength(parts: seq<string>)
    requires parts != []
    ensures |JoinLines(parts)| == SumLen(parts) + |parts| - 1
  {
    if |parts| > 1 {
      JoinLinesLength(parts[..|parts| - 1]);
    } else {
      assert parts[..0] == [];
    }
  }

  /** Strip each part and keep the non-empty ones, in order: the
      `x = x.strip(); if x: out.append(x)` idiom. */
  function StrippedNonEmpty(parts: seq<string>): (r: seq<string>)
    ensures forall i :: 0 <= i < |r| ==> r[i] != "" && IsStripped(r[i])
  {
    if parts == [] then []
    else
      var x := Strip(parts[|parts| - 1]);
      StrippedNonEmpty(parts[..|parts| - 1]) + (if x == "" then [] else [x])
  }

  lemma StrippedNonEmptyStep(parts: seq<string>, j: nat)
    requires j < |parts|
    ensures var x := Strip(parts[j]);
      StrippedNonEmpty(parts[..j + 1]) == StrippedNonEmpty(parts[..j]) + (if x == "" then [] else [x])
  {
    assert parts[..j + 1][..j] == parts[..j];
  }

  /** Keeping the stripped non-empty parts loses no non-whitespace text. */
  lemma {:induction false} NonSpaceStrippedNonEmpty(parts: seq<string>)
    ensures NonSpace(Concat(StrippedNonEmpty(parts))) == NonSpace(Concat(parts))
  {
    if parts != [] {
      var init, last := parts[..|parts| - 1], parts[|parts| - 1];
      var x := Strip(last);
      var kept: seq<string> := if x == "" then [] else [x];
      assert StrippedNonEmpty(parts) == StrippedNonEmpty(init) + kept;
      assert NonSpace(Concat(kept)) == NonSpace(last) by {
        NonSpaceStrip(last);
        if x == "" {
          assert kept == [] && Concat(kept) == "";
          assert NonSpace(x) == [];
        } else {
          assert kept == [x] && kept[..0] == [];
          assert Concat(kept) == x;
        }
      }
      calc {
        NonSpace(Concat(StrippedNonEmpty(parts)));
        { ConcatAppend(StrippedNonEmpty(init), kept); }
        NonSpace(Concat(StrippedNonEmpty(init)) + Concat(kept));
        { NonSpaceAppend(Concat(StrippedNonEmpty(init)), Concat(kept)); }
        NonSpace(Concat(StrippedNonEmpty(init))) + NonSpace(Concat(kept));
        { NonSpaceStrippedNonEmpty(init); }
        NonSpace(Concat(init)) + NonSpace(last);
        { NonSpaceAppend(Concat(init), last); }
        NonSpace(Concat(init) + last);
      }
    }
  }

  predicate IsUpperAscii(c: char) { 'A' <= c <= 'Z' }

  predicate IsLowerAscii(c: char) { 'a' <= c <= 'z' }

  /** A letter that has case (ASCII model of Python's "cased" characters). */
  predicate IsCased(c: char) { IsUpperAscii(c) || IsLowerAscii(c) }

  predicate IsDigit(c: char) { '0' <= c <= '9' }

  function LowerChar(c: char): char {
    if IsUpperAscii(c) then (c as int + 32) as char else c
  }

  function UpperChar(c: char): char {
    if IsLowerAscii(c) then (c as int - 32) as char else c
  }

  /** `s.lower()` on ASCII letters. */
  function Lower(s: string): (r: string)
    ensures |r| == |s|
  {
    seq(|s|, i requires 0 <= i < |s| => LowerChar(s[i]))
  }

  /** `s.title()`: a cased letter is upper-cased when the character before it is
      not cased and lower-cased otherwise. */
  function TitleFrom(s: string, afterCased: bool): (r: string)
    ensures |r| == |s|
  {
    if s == [] then []
    else
      var c := s[0];
      [if !IsCased(c) then c else if afterCased then LowerChar(c) else UpperChar(c)]
      + TitleFrom(s[1..], IsCased(c))
  }

  function Title(s: string): string {
    TitleFrom(s, false)
  }

  /** Title-casing does not depend on the case of the input, so a header line
      in any case gets the label of the lower-case vocabulary entry. */
  lemma {:induction false} TitleOfLower(s: string, afterCased: bool)
    ensures TitleFrom(Lower(s), afterCased) == TitleFrom(s, afterCased)
  {
    if s != [] {
      assert Lower(s)[1..] == Lower(s[1..]);
      TitleOfLower(s[1..], IsCased(s[0]));
    }
  }

  /** Title-casing changes only the case of letters. */
  lemma {:induction false} TitleKeepsLetters(s: string, afterCased: bool)
    ensures Lower(TitleFrom(s, afterCased)) == Lower(s)
  {
    if s != [] {
      var t := TitleFrom(s, afterCased);
      TitleKeepsLetters(s[1..], IsCased(s[0]));
      assert t[1..] == TitleFrom(s[1..], IsCased(s[0]));
      assert Lower(t)[1..] == Lower(t[1..]);
      assert Lower(s)[1..] == Lower(s[1..]);
    }
  }
}
