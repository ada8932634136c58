/** `_SECTION_HEADERS` and `_detect_sections`: cutting a document into
    labelled sections at standalone header lines. */
module Sections {
  import opened Text

  /** One `(section_label, section_body)` pair. */
  datatype Section = Section(name: string, body: string)

  /** The fixed header vocabulary, in the order the source lists it. */
  const SectionHeaders: seq<string> := [
    "objective", "summary", "skills", "certifications", "courses",
    "achievements", "education", "experience", "projects",
    "work experience", "professional experience", "technical skills",
    "publications", "awards", "interests", "hobbies", "references",
    "contact", "about", "introduction", "background", "methodology",
    "results", "conclusion", "abstract", "overview"
  ]

  /** `header_pat.match(stripped)`: a stripped line is a header when it equals
      a vocabulary entry up to (ASCII) case. The pattern is anchored at both
      ends, so which alternative is tried first does not change whether it
      matches; its trailing `\s*$` adds nothing because the line is already
      stripped, and its group 1 is then the whole line. */
  predicate IsHeaderLine(stripped: string) {
    Lower(stripped) in SectionHeaders
  }

  /** The alternation tried in order from entry `k`: `x` equals one of the
      entries at index `k` or later. */
  predicate MatchesEntryFrom(x: string, entries: seq<string>, k: nat)
    decreases |entries| - k
  {
    k < |entries| && (x == entries[k] || MatchesEntryFrom(x, entries, k + 1))
  }

  lemma {:induction false} MatchesEntryFromIndex(x: string, entries: seq<string>, k: nat)
    ensures MatchesEntryFrom(x, entries, k) <==> exists j :: k <= j < |entries| && x == entries[j]
    decreases |entries| - k
  {
    if k < |entries| {
      MatchesEntryFromIndex(x, entries, k + 1);
    }
  }

  /** Trying the alternatives one by one, in the order of the vocabulary,
      accepts exactly the header lines. */
  lemma HeaderLineIsAlternation(stripped: string)
    ensures IsHeaderLine(stripped) <==> MatchesEntryFrom(Lower(stripped), SectionHeaders, 0)
  {
    MatchesEntryFromIndex(Lower(stripped), SectionHeaders, 0);
  }

  /** A label the detector can produce from a header: a title-cased entry. */
  ghost predicate IsHeaderLabel(name: string) {
    exists k :: 0 <= k < |SectionHeaders| && name == Title(SectionHeaders[k])
  }

  /** The label of a header line is the title-cased vocabulary entry it matched. */
  lemma HeaderLabel(stripped: string)
    requires IsHeaderLine(stripped)
    ensures Title(stripped) != "" && IsHeaderLabel(Title(stripped))
  {
    TitleOfLower(stripped, false);
    var k :| 0 <= k < |SectionHeaders| && SectionHeaders[k] == Lower(stripped);
  }

  /** `re.sub(r'\n{3,}', '\n\n', text)`: runs of three or more newlines become two. */
  function CollapseBlankLines(s: string): (r: string)
    ensures s != [] && s[0] != '\n' ==> r != [] && r[0] == s[0]
  {
    if s == [] then []
    else if s[0] == '\n' then
      var k := NewlineRun(s);
      (if k >= 3 then "\n\n" else s[..k]) + CollapseBlankLines(s[k..])
    else [s[0]] + CollapseBlankLines(s[1..])
  }

  /** Three newlines in a row start at index `i`. */
  ghost predicate TripleNewlineAt(s: string, i: int) {
    0 <= i && i + 3 <= |s| && s[i] == '\n' && s[i + 1] == '\n' && s[i + 2] == '\n'
  }

  ghost predicate NoTripleNewline(s: string) {
    forall i :: !TripleNewlineAt(s, i)
  }

  /** After the collapse no three newlines follow each other. */
  lemma {:induction false} CollapseLeavesNoTriple(s: string)
    ensures NoTripleNewline(CollapseBlankLines(s))
  {
    if s != [] {
      var r := CollapseBlankLines(s);
      if s[0] == '\n' {
        var k := NewlineRun(s);
        var head := if k >= 3 then "\n\n" else s[..k];
        var tail := CollapseBlankLines(s[k..]);
        CollapseLeavesNoTriple(s[k..]);
        assert r == head + tail;
        assert |head| <= 2;
        assert tail == [] || tail[0] != '\n';
        assert |r| > |head| ==> r[|head|] == tail[0];
        forall i ensures !TripleNewlineAt(r, i) {
          if i >= |head| {
            assert !TripleNewlineAt(tail, i - |head|);
          }
        }
      } else {
        var tail := CollapseBlankLines(s[1..]);
        CollapseLeavesNoTriple(s[1..]);
        assert r == [s[0]] + tail;
        forall i ensures !TripleNewlineAt(r, i) {
          if i >= 1 {
            assert !TripleNewlineAt(tail, i - 1);
          }
        }
      }
    }
  }

  /** The collapse removes newlines only. */
  lemma {:induction false} NonSpaceCollapseBlankLines(s: string)
    ensures NonSpace(CollapseBlankLines(s)) == NonSpace(s)
  {
    if s != [] {
      if s[0] == '\n' {
        var k := NewlineRun(s);
        var head := if k >= 3 then "\n\n" else s[..k];
        NonSpaceCollapseBlankLines(s[k..]);
        NonSpaceReplaceRun(s, k, head, CollapseBlankLines(s[k..]));
      } else {
        NonSpaceCollapseBlankLines(s[1..]);
        NonSpaceAppend([s[0]], CollapseBlankLines(s[1..]));
        assert s == [s[0]] + s[1..];
        NonSpaceAppend([s[0]], s[1..]);
      }
    }
  }

  /** Replacing a leading run of newlines by whitespace, and the rest by a
      text with the same non-whitespace characters, keeps the text. */
  lemma NonSpaceReplaceRun(s: string, k: nat, head: string, rest: string)
    requires k <= |s| && forall i :: 0 <= i < k ==> s[i] == '\n'
    requires head == "\n\n" || head == s[..k]
    requires NonSpace(rest) == NonSpace(s[k..])
    ensures NonSpace(head + rest) == NonSpace(s)
  {
    assert AllSpace(head);
    NonSpaceSpacePrefix(head, rest);
    assert s == s[..k] + s[k..];
    NonSpaceSpacePrefix(s[..k], s[k..]);
  }

  lemma NoTripleSuffix(s: string, j: nat)
    requires j <= |s| && NoTripleNewline(s)
    ensures NoTripleNewline(s[j..])
  {
    forall i ensures !TripleNewlineAt(s[j..], i) {
      if 0 <= i {
        assert !TripleNewlineAt(s, i + j);
      }
    }
  }

  /** A text without three newlines in a row is left unchanged by the collapse. */
  lemma {:induction false} CollapseBlankLinesFixed(s: string)
    requires NoTripleNewline(s)
    ensures CollapseBlankLines(s) == s
  {
    if s != [] {
      if s[0] == '\n' {
        var k := NewlineRun(s);
        assert !TripleNewlineAt(s, 0);
        NoTripleSuffix(s, k);
        CollapseBlankLinesFixed(s[k..]);
        assert s[..k] + s[k..] == s;
      } else {
        NoTripleSuffix(s, 1);
        CollapseBlankLinesFixed(s[1..]);
        assert [s[0]] + s[1..] == s;
      }
    }
  }

  /** `\w` on ASCII: letters, digits and underscore. */
  predicate IsWordChar(c: char) {
    IsCased(c) || IsDigit(c) || c == '_'
  }

  /** Length of the run of `[\w-]` characters starting at `i`. */
  function DomainRun(s: string, i: nat): (k: nat)
    requires i <= |s|
    ensures i + k <= |s|
    decreases |s| - i
  {
    if i < |s| && (IsWordChar(s[i]) || s[i] == '-') then 1 + DomainRun(s, i + 1) else 0
  }

  /** `[\w.+-]+@[\w-]+\.[\w.]+` matches with its `@` at index `at`. One
      character of the local part is enough for a match, and because `.` is
      not in `[\w-]` the domain run can only end at its first non-member. */
  predicate EmailAt(s: string, at: nat)
    requires at < |s|
  {
    && s[at] == '@'
    && 0 < at && (IsWordChar(s[at - 1]) || s[at - 1] in ".+-")
    && var k := DomainRun(s, at + 1);
       && 0 < k && at + k + 2 < |s|
       && s[at + 1 + k] == '.'
       && (IsWordChar(s[at + 2 + k]) || s[at + 2 + k] == '.')
  }

  /** `re.search(r'[\w.+-]+@[\w-]+\.[\w.]+', body)` finds something. */
  predicate HasEmail(s: string) {
    exists at :: 0 <= at < |s| && EmailAt(s, at)
  }

  predicate IsPhoneChar(c: char) {
    IsDigit(c) || IsSpace(c) || c == '-'
  }

  /** `re.search(r'\+?\d[\d\s\-]{7,}', body)` finds something: a digit followed
      by at least seven digits, spaces or dashes. The optional `+` does not
      change whether a match exists. */
  predicate HasPhone(s: string) {
    exists i :: 0 <= i < |s| - 7 && IsDigit(s[i]) && forall j :: i < j <= i + 7 ==> IsPhoneChar(s[j])
  }

  /** `[\w.+-]` */
  predicate IsLocalChar(c: char) {
    IsWordChar(c) || c in ".+-"
  }

  /** The whole pattern `[\w.+-]+@[\w-]+\.[\w.]+` matches `s[a..e]`, with its
      `@` at `at` and the `\.` after the domain run at `dot`. */
  ghost predicate EmailMatch(s: string, a: int, at: int, dot: int, e: int) {
    && 0 <= a < at && at + 1 < dot && dot + 1 < e <= |s|
    && (forall j :: a <= j < at ==> IsLocalChar(s[j]))
    && s[at] == '@'
    && (forall j :: at < j < dot ==> IsWordChar(s[j]) || s[j] == '-')
    && s[dot] == '.'
    && (forall j :: dot < j < e ==> IsWordChar(s[j]) || s[j] == '.')
  }

  lemma {:induction false} DomainRunExact(s: string, i: nat, d: nat)
    requires i <= d < |s| && !(IsWordChar(s[d]) || s[d] == '-')
    requires forall j :: i <= j < d ==> IsWordChar(s[j]) || s[j] == '-'
    ensures DomainRun(s, i) == d - i
    decreases d - i
  {
    if i < d {
      DomainRunExact(s, i + 1, d);
    }
  }

  lemma DomainRunMembers(s: string, i: nat, j: nat)
    requires i <= |s| && i <= j < i + DomainRun(s, i)
    ensures IsWordChar(s[j]) || s[j] == '-'
    decreases j - i
  {
    if i < j {
      DomainRunMembers(s, i + 1, j);
    }
  }

  /** `HasEmail` holds exactly when the whole email pattern matches somewhere. */
  lemma HasEmailIsSearch(s: string)
    ensures HasEmail(s) <==> exists a, at, dot, e :: EmailMatch(s, a, at, dot, e)
  {
    if HasEmail(s) {
      var at :| 0 <= at < |s| && EmailAt(s, at);
      var k := DomainRun(s, at + 1);
      forall j | at < j < at + 1 + k ensures IsWordChar(s[j]) || s[j] == '-' {
        DomainRunMembers(s, at + 1, j);
      }
      assert EmailMatch(s, at - 1, at, at + 1 + k, at + 3 + k);
    }
    if exists a, at, dot, e :: EmailMatch(s, a, at, dot, e) {
      var a, at, dot, e :| EmailMatch(s, a, at, dot, e);
      DomainRunExact(s, at + 1, dot);
      assert EmailAt(s, at);
    }
  }

  /** `\+?\d[\d\s\-]{7,}` matches from `i`: an optional `+`, a digit, then
      at least seven digits, spaces or dashes. */
  ghost predicate PhoneMatchAt(s: string, i: int) {
    && 0 <= i
    && exists d ::
         && d in {i, i + 1}
         && (d == i + 1 ==> i < |s| && s[i] == '+')
         && 0 <= d < |s| - 7
         && IsDigit(s[d])
         && (forall j :: d < j <= d + 7 ==> IsPhoneChar(s[j]))
  }

  /** The optional `+` does not change whether the phone pattern matches somewhere. */
  lemma HasPhoneIsSearch(s: string)
    ensures HasPhone(s) <==> exists i :: PhoneMatchAt(s, i)
  {
    if HasPhone(s) {
      var i :| 0 <= i < |s| - 7 && IsDigit(s[i]) && forall j :: i < j <= i + 7 ==> IsPhoneChar(s[j]);
      assert PhoneMatchAt(s, i);
    }
    if exists i :: PhoneMatchAt(s, i) {
      var i :| PhoneMatchAt(s, i);
      var d :| d in {i, i + 1} && (d == i + 1 ==> i < |s| && s[i] == '+')
        && 0 <= d < |s| - 7 && IsDigit(s[d]) && forall j :: d < j <= d + 7 ==> IsPhoneChar(s[j]);
      assert IsDigit(s[d]) && forall j :: d < j <= d + 7 ==> IsPhoneChar(s[j]);
    }
  }

  predicate LooksLikeContact(body: string) {
    HasEmail(body) || HasPhone(body)
  }

  /** The loop state of `_detect_sections`: the sections emitted so far,
      `current_label` and `current_lines`. */
  datatype Scan = Scan(sections: seq<Section>, currentLabel: string, lines: seq<string>)

  /** Emit the accumulated lines as a section unless their stripped join is empty. */
  function FlushScan(st: Scan): seq<Section> {
    var body := Strip(JoinLines(st.lines));
    if body != "" then st.sections + [Section(st.currentLabel, body)] else st.sections
  }

  /** One iteration of the line loop: a header line flushes and switches the
      label; any other line (blank ones included) is kept as it is. */
  function ScanLine(st: Scan, line: string): Scan {
    var stripped := Strip(line);
    if IsHeaderLine(stripped) then Scan(FlushScan(st), Title(stripped), [])
    else Scan(st.sections, st.currentLabel, st.lines + [line])
  }

  function ScanLines(lines: seq<string>): Scan {
    if lines == [] then Scan([], "", [])
    else ScanLine(ScanLines(lines[..|lines| - 1]), lines[|lines| - 1])
  }

  /** The "Contact" heuristic: an unlabelled first section that holds an email
      address or a phone number is relabelled; nothing else changes. */
  function LabelContact(sections: seq<Section>): (r: seq<Section>)
    ensures |r| == |sections|
    ensures forall i :: 0 <= i < |r| ==> r[i].body == sections[i].body
    ensures forall i :: 0 < i < |r| ==> r[i].name == sections[i].name
    ensures |r| > 0 && r[0].name != sections[0].name ==>
              sections[0].name == "" && r[0].name == "Contact"
    ensures |r| > 0 && sections[0].name == "" ==>
              (r[0].name == "Contact" <==> LooksLikeContact(sections[0].body))
  {
    if |sections| > 0 && sections[0].name == "" && LooksLikeContact(sections[0].body)
    then sections[0 := Section("Contact", sections[0].body)]
    else sections
  }

  /** What `_detect_sections(text)` returns. */
  function SectionsOf(text: string): seq<Section> {
    LabelContact(FlushScan(ScanLines(Lines(CollapseBlankLines(text)))))
  }

  /** Every body is non-empty and stripped; only the first section can be
      unlabelled; every label is a title-cased vocabulary entry. */
  ghost predicate WellFormed(sections: seq<Section>) {
    forall i :: 0 <= i < |sections| ==>
      && sections[i].body != ""
      && IsStripped(sections[i].body)
      && (i > 0 ==> sections[i].name != "")
      && (sections[i].name == "" || IsHeaderLabel(sections[i].name))
  }

  /** The loop state keeps the emitted sections well formed, and the label is
      empty only while nothing has been emitted. */
  ghost predicate ScanOk(st: Scan) {
    && WellFormed(st.sections)
    && (st.currentLabel == "" ==> st.sections == [])
    && (st.currentLabel == "" || IsHeaderLabel(st.currentLabel))
  }

  lemma FlushScanOk(st: Scan)
    requires ScanOk(st)
    ensures WellFormed(FlushScan(st))
  {
  }

  lemma {:induction false} ScanLinesOk(lines: seq<string>)
    ensures ScanOk(ScanLines(lines))
  {
    if lines != [] {
      var st := ScanLines(lines[..|lines| - 1]);
      ScanLinesOk(lines[..|lines| - 1]);
      var stripped := Strip(lines[|lines| - 1]);
      if IsHeaderLine(stripped) {
        HeaderLabel(stripped);
        FlushScanOk(st);
      }
    }
  }

  lemma ContactIsHeaderLabel()
    ensures IsHeaderLabel("Contact")
  {
    assert SectionHeaders[17] == "contact";
    TitleOfContact();
  }

  lemma TitleOfContact()
    ensures Title("contact") == "Contact"
  {
    TitleFromLower('t', "", true);
    TitleFromLower('c', "t", true);
    TitleFromLower('a', "ct", true);
    TitleFromLower('t', "act", true);
    TitleFromLower('n', "tact", true);
    TitleFromLower('o', "ntact", true);
    TitleFromLower('c', "ontact", false);
    assert "contact" == ['c'] + "ontact";
  }

  /** One step of title-casing at a lower-case letter. */
  lemma TitleFromLower(c: char, s: string, afterCased: bool)
    requires IsLowerAscii(c)
    ensures TitleFrom([c] + s, afterCased) == [if afterCased then c else UpperChar(c)] + TitleFrom(s, true)
  {
    assert ([c] + s)[1..] == s;
  }

  /** The detector's result is well formed. */
  lemma SectionsWellFormed(text: string)
    ensures WellFormed(SectionsOf(text))
  {
    var st := ScanLines(Lines(CollapseBlankLines(text)));
    ScanLinesOk(Lines(CollapseBlankLines(text)));
    FlushScanOk(st);
    ContactIsHeaderLabel();
  }

  /** The lines that are not headers, in order: the lines that reach a body. */
  function NonHeaderLines(lines: seq<string>): seq<string> {
    if lines == [] then []
    else
      var last := lines[|lines| - 1];
      NonHeaderLines(lines[..|lines| - 1]) + (if IsHeaderLine(Strip(last)) then [] else [last])
  }

  function Bodies(sections: seq<Section>): seq<string> {
    seq(|sections|, i requires 0 <= i < |sections| => sections[i].body)
  }

  /** The non-whitespace text a loop state holds: emitted bodies, then pending lines. */
  ghost function KeptText(st: Scan): string {
    NonSpace(Concat(Bodies(st.sections))) + NonSpace(Concat(st.lines))
  }

  /** Flushing moves the accumulated lines into a body without losing text. */
  lemma FlushScanKeepsText(st: Scan)
    ensures NonSpace(Concat(Bodies(FlushScan(st)))) == KeptText(st)
  {
    var joined := JoinLines(st.lines);
    var body := Strip(joined);
    NonSpaceJoinLines(st.lines);
    NonSpaceStrip(joined);
    if body == "" {
      StripEmpty(joined);
      NonSpaceOfSpace(joined);
    } else {
      var ss := st.sections + [Section(st.currentLabel, body)];
      assert Bodies(ss) == Bodies(st.sections) + [body];
      ConcatAppend(Bodies(st.sections), [body]);
      assert Concat([body]) == body by {
        assert [body][..0] == [];
      }
      NonSpaceAppend(Concat(Bodies(st.sections)), body);
    }
  }

  /** A header line moves text from pending lines to a body; any other line adds its text. */
  lemma ScanLineKeepsText(st: Scan, line: string)
    ensures KeptText(ScanLine(st, line))
         == KeptText(st) + (if IsHeaderLine(Strip(line)) then [] else NonSpace(line))
  {
    var st' := ScanLine(st, line);
    if IsHeaderLine(Strip(line)) {
      FlushScanKeepsText(st);
      assert st'.lines == [];
    } else {
      assert st'.sections == st.sections && st'.lines == st.lines + [line];
      assert Concat([line]) == line by {
        assert [line][..0] == [];
      }
      ConcatAppend(st.lines, [line]);
      NonSpaceAppend(Concat(st.lines), line);
    }
  }

  lemma {:induction false} ScanLinesKeepText(lines: seq<string>)
    ensures KeptText(ScanLines(lines)) == NonSpace(Concat(NonHeaderLines(lines)))
  {
    if lines != [] {
      var init, line := lines[..|lines| - 1], lines[|lines| - 1];
      var before := NonHeaderLines(init);
      ScanLinesKeepText(init);
      ScanLineKeepsText(ScanLines(init), line);
      assert ScanLines(lines) == ScanLine(ScanLines(init), line);
      if IsHeaderLine(Strip(line)) {
        assert NonHeaderLines(lines) == before + [];
        assert before + [] == before;
      } else {
        assert NonHeaderLines(lines) == before + [line];
        AppendLineKeepsText(before, line);
      }
    }
  }

  lemma AppendLineKeepsText(lines: seq<string>, line: string)
    ensures NonSpace(Concat(lines + [line])) == NonSpace(Concat(lines)) + NonSpace(line)
  {
    assert (lines + [line])[..|lines|] == lines;
    NonSpaceAppend(Concat(lines), line);
  }

  /** Section detection drops only whitespace and header lines: the bodies
      carry, in order, every other non-whitespace character of the text. */
  lemma SectionsKeepText(text: string)
    ensures NonSpace(Concat(Bodies(SectionsOf(text))))
         == NonSpace(Concat(NonHeaderLines(Lines(CollapseBlankLines(text)))))
  {
    var lines := Lines(CollapseBlankLines(text));
    var st := ScanLines(lines);
    ScanLinesKeepText(lines);
    assert SectionsOf(text) == LabelContact(FlushScan(st));
    FlushScanKeepsText(st);
    BodiesLabelContact(FlushScan(st));
  }

  lemma BodiesLabelContact(sections: seq<Section>)
    ensures Bodies(LabelContact(sections)) == Bodies(sections)
  {
    var r := LabelContact(sections);
    assert |Bodies(r)| == |Bodies(sections)|;
    forall i | 0 <= i < |r| ensures Bodies(r)[i] == Bodies(sections)[i] {
      assert r[i].body == sections[i].body;
    }
  }

  /** The lines of a text carry all of its non-whitespace characters. */
  lemma NonSpaceLines(s: string)
    ensures NonSpace(Concat(Lines(s))) == NonSpace(s)
  {
    JoinLinesOfLines(s);
    NonSpaceJoinLines(Lines(s));
  }

  /** No line of `lines` is a header line. */
  predicate NoHeaderLines(lines: seq<string>) {
    lines == [] || (NoHeaderLines(lines[..|lines| - 1]) && !IsHeaderLine(Strip(lines[|lines| - 1])))
  }

  lemma {:induction false} NonHeaderLinesAll(lines: seq<string>)
    requires NoHeaderLines(lines)
    ensures NonHeaderLines(lines) == lines
  {
    if lines != [] {
      NonHeaderLinesAll(lines[..|lines| - 1]);
    }
  }

  /** Without header lines, the bodies hold exactly the text's non-whitespace characters. */
  lemma HeaderlessTextKept(text: string)
    requires NoHeaderLines(Lines(CollapseBlankLines(text)))
    ensures NonSpace(Concat(Bodies(SectionsOf(text)))) == NonSpace(text)
  {
    var collapsed := CollapseBlankLines(text);
    NonHeaderLinesAll(Lines(collapsed));
    SectionsKeepText(text);
    NonSpaceLines(collapsed);
    NonSpaceCollapseBlankLines(text);
  }

  lemma ScanLinesStep(lines: seq<string>, i: nat)
    requires i < |lines|
    ensures ScanLines(lines[..i + 1]) == ScanLine(ScanLines(lines[..i]), lines[i])
  {
    assert lines[..i + 1][..i] == lines[..i];
  }

  /** `_detect_sections(text)`. */
  method DetectSections(text: string) returns (sections: seq<Section>)
    ensures sections == SectionsOf(text)
    ensures WellFormed(sections)
  {
    var lines := Lines(CollapseBlankLines(text));
    sections := [];
    var currentLabel := "";
    var current: seq<string> := [];
    var i := 0;
    while i < |lines|
      invariant 0 <= i <= |lines|
      invariant Scan(sections, currentLabel, current) == ScanLines(lines[..i])
    {
      var line := lines[i];
      var stripped := Strip(line);
      ScanLinesStep(lines, i);
      if IsHeaderLine(stripped) {
        var body := Strip(JoinLines(current));
        if body != "" {
          sections := sections + [Section(currentLabel, body)];
        }
        currentLabel := Title(stripped);
        current := [];
      } else {
        current := current + [line];
      }
      i := i + 1;
    }
    assert lines[..i] == lines;
    sections := FinishSections(sections, currentLabel, current);
    SectionsWellFormed(text);
  }

  /** The tail of `_detect_sections`: flush the last section, then relabel a
      leading unlabelled section that holds contact details. */
  method FinishSections(sections: seq<Section>, currentLabel: string, current: seq<string>)
    returns (r: seq<Section>)
    ensures r == LabelContact(FlushScan(Scan(sections, currentLabel, current)))
  {
    r := sections;
    var body := Strip(JoinLines(current));
    if body != "" {
      r := r + [Section(currentLabel, body)];
    }
    if |r| > 0 && r[0].name == "" {
      var first := r[0].body;
      if HasEmail(first) || HasPhone(first) {
        r := r[0 := Section("Contact", first)];
      }
    }
  }
}
