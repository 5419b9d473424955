/** The flagfile language: which lines a text has, which of them apply to this program, and which
    assignments they make. Nothing here depends on flag values, only on registered names. */
module Flagfile {
  import opened Text
  import Names

  /** `--name=text` with the name already resolved to a registered flag. */
  datatype Assign = Assign(name: string, text: string)

  // ----- Lines -----

  datatype Cut = Cut(line: string, rest: Option<string>)

  /** One turn of the reading loop: white space, line ends included, is skipped first; then the
      line extends to the first CR of the whole remaining text or, if it has none, to the first LF. */
  function NextLine(text: string): (c: Cut)
    ensures c.rest.Some? ==> |c.rest.value| < |text|
  {
    var t := SkipSpace(text);
    var cr := IndexOf(t, CR);
    var end := if cr < |t| then cr else IndexOf(t, LF);
    if end == |t| then Cut(t, None) else Cut(t[..end], Some(t[end + 1..]))
  }

  function Lines(text: string): (ls: seq<string>)
    ensures ls != []
    decreases |text|
  {
    var c := NextLine(text);
    [c.line] + (match c.rest case None => [] case Some(rest) => Lines(rest))
  }

  predicate IsIgnored(line: string) {
    line == "" || line[0] == '#'
  }

  predicate IsFlagLine(line: string) {
    line != "" && line[0] == '-'
  }

  predicate IsFilenameLine(line: string) {
    !IsIgnored(line) && !IsFlagLine(line)
  }

  /** Skips the one or two dashes in front of a flag. */
  function StripDashes(arg: string): string
    requires arg != ""
  {
    if |arg| >= 2 && arg[1] == '-' then arg[2..] else arg[1..]
  }

  /** The assignment a flag line makes; unknown names and missing values are silently dropped. */
  function LineAssign(sig: Names.Signature, line: string): Option<Assign>
    requires line != ""
  {
    match Names.SplitArgument(sig, StripDashes(line))
    case Resolved(_, flag, Some(value)) => Some(Assign(flag, value))
    case _ => None
  }

  // ----- Which program a line is for -----

  /** Whether a glob pattern matches the full or the short program name. */
  type Matcher = string -> bool

  /** Some blank-separated word of the line matches. */
  predicate LineMatches(matches: Matcher, line: string) {
    exists i | 0 <= i < |Split(line, ' ')| :: matches(Split(line, ' ')[i])
  }

  /** The two variables of the reading loop. */
  datatype Section = Section(relevant: bool, inFilenames: bool)

  const START := Section(true, false)

  function NextSection(matches: Matcher, s: Section, line: string): Section {
    if IsIgnored(line) then s
    else if IsFlagLine(line) then s.(inFilenames := false)
    else Section((s.inFilenames && s.relevant) || LineMatches(matches, line), true)
  }

  function LineEffect(sig: Names.Signature, s: Section, line: string): seq<Assign> {
    if !IsFlagLine(line) || !s.relevant then []
    else match LineAssign(sig, line) case None => [] case Some(a) => [a]
  }

  /** The assignments read from `lines` when the loop stands in section `s`. */
  function ReadLines(matches: Matcher, sig: Names.Signature, lines: seq<string>, s: Section): seq<Assign> {
    if lines == [] then []
    else LineEffect(sig, s, lines[0]) +
         ReadLines(matches, sig, lines[1..], NextSection(matches, s, lines[0]))
  }

  /** Everything a flagfile text assigns, in order. */
  function TextAssigns(matches: Matcher, sig: Names.Signature, text: string): seq<Assign> {
    ReadLines(matches, sig, Lines(CStr(text)), START)
  }

  // ----- The declarative reading -----

  predicate NoneBetween(lines: seq<string>, lo: int, hi: int, p: string -> bool) {
    forall m | 0 <= m < |lines| && lo < m < hi :: !p(lines[m])
  }

  /** Filename lines `k` and `j` belong to one group: no flag line stands between them. Comments and
      empty lines do not split a group. */
  predicate SameGroup(lines: seq<string>, k: nat, j: nat)
    requires k <= j < |lines|
  {
    && IsFilenameLine(lines[k]) && IsFilenameLine(lines[j])
    && NoneBetween(lines, k, j, IsFlagLine)
  }

  /** `j` is the last filename line before position `n`. */
  predicate LatestFilename(lines: seq<string>, j: nat, n: nat) {
    j < n <= |lines| && IsFilenameLine(lines[j]) && NoneBetween(lines, j, n, IsFilenameLine)
  }

  predicate GroupMatches(matches: Matcher, lines: seq<string>, k: nat, j: nat, n: nat) {
    && n <= |lines| && LatestFilename(lines, j, n) && k <= j
    && SameGroup(lines, k, j) && LineMatches(matches, lines[k])
  }

  /** A flag line at position `n` is for this program: no filename line precedes it, or some line of
      the latest group of filename lines has a matching word. */
  ghost predicate ForUs(matches: Matcher, lines: seq<string>, n: nat) {
    || NoneBetween(lines, -1, n, IsFilenameLine)
    || exists k: nat, j: nat :: GroupMatches(matches, lines, k, j, n)
  }

  /** The assignments of the flag lines among the first `n` that are for this program. */
  ghost function DeclaredAssigns(matches: Matcher, sig: Names.Signature, lines: seq<string>, n: nat): seq<Assign>
    requires n <= |lines|
  {
    if n == 0 then []
    else
      var line := lines[n - 1];
      DeclaredAssigns(matches, sig, lines, n - 1) +
      (if IsFlagLine(line) && ForUs(matches, lines, n - 1) && LineAssign(sig, line).Some?
       then [LineAssign(sig, line).value] else [])
  }

  /** No flag line has appeared since the latest filename line before `n`. */
  ghost predicate InGroup(lines: seq<string>, n: nat) {
    exists j: nat :: LatestFilename(lines, j, n) && NoneBetween(lines, j, n, IsFlagLine)
  }

  lemma LatestSkip(lines: seq<string>, j: nat, n: nat)
    requires n < |lines| && !IsFilenameLine(lines[n])
    ensures LatestFilename(lines, j, n + 1) <==> LatestFilename(lines, j, n)
    ensures LatestFilename(lines, j, n) ==>
      (NoneBetween(lines, j, n + 1, IsFlagLine) <==>
       NoneBetween(lines, j, n, IsFlagLine) && !IsFlagLine(lines[n]))
  {
    assert NoneBetween(lines, j, n + 1, IsFilenameLine) <==>
           (j < n ==> NoneBetween(lines, j, n, IsFilenameLine));
  }

  lemma ForUsSkip(matches: Matcher, lines: seq<string>, n: nat)
    requires n < |lines| && !IsFilenameLine(lines[n])
    ensures ForUs(matches, lines, n + 1) <==> ForUs(matches, lines, n)
    ensures InGroup(lines, n + 1) <==> InGroup(lines, n) && !IsFlagLine(lines[n])
  {
    assert NoneBetween(lines, -1, n + 1, IsFilenameLine) <==> NoneBetween(lines, -1, n, IsFilenameLine);
    hide LatestFilename, NoneBetween, SameGroup, LineMatches, IsFilenameLine;
    var next := n + 1;
    forall k: nat, j: nat
      ensures GroupMatches(matches, lines, k, j, next) <==> GroupMatches(matches, lines, k, j, n)
    {
      LatestSkip(lines, j, n);
    }
    forall j: nat
      ensures LatestFilename(lines, j, next) <==> LatestFilename(lines, j, n)
      ensures LatestFilename(lines, j, n) ==>
        (NoneBetween(lines, j, next, IsFlagLine) <==>
         NoneBetween(lines, j, n, IsFlagLine) && !IsFlagLine(lines[n]))
    {
      LatestSkip(lines, j, n);
    }
  }

  lemma LatestUnique(lines: seq<string>, i: nat, j: nat, n: nat)
    requires LatestFilename(lines, i, n) && LatestFilename(lines, j, n)
    ensures i == j
  {
  }

  lemma ForUsFilename(matches: Matcher, lines: seq<string>, n: nat)
    requires n < |lines| && IsFilenameLine(lines[n])
    ensures InGroup(lines, n + 1)
    ensures ForUs(matches, lines, n + 1) <==>
              (InGroup(lines, n) && ForUs(matches, lines, n)) || LineMatches(matches, lines[n])
  {
    assert LatestFilename(lines, n, n + 1);
    assert !NoneBetween(lines, -1, n + 1, IsFilenameLine);
    if LineMatches(matches, lines[n]) {
      assert GroupMatches(matches, lines, n, n, n + 1);
    }
    hide LineMatches;
    if InGroup(lines, n) && ForUs(matches, lines, n) {
      var j: nat :| LatestFilename(lines, j, n) && NoneBetween(lines, j, n, IsFlagLine);
      assert !NoneBetween(lines, -1, n, IsFilenameLine);
      var k: nat, i: nat :| GroupMatches(matches, lines, k, i, n);
      LatestUnique(lines, i, j, n);
      assert GroupMatches(matches, lines, k, n, n + 1);
    }
    if ForUs(matches, lines, n + 1) && !LineMatches(matches, lines[n]) {
      var k: nat, i: nat :| GroupMatches(matches, lines, k, i, n + 1);
      LatestUnique(lines, i, n, n + 1);
      assert k < n;
      var j := Latest(lines, k, n);
      assert GroupMatches(matches, lines, k, j, n);
    }
  }

  lemma {:induction false} Latest(lines: seq<string>, k: nat, n: nat) returns (j: nat)
    requires k < n <= |lines| && IsFilenameLine(lines[k])
    ensures LatestFilename(lines, j, n) && k <= j
  {
    if IsFilenameLine(lines[n - 1]) {
      j := n - 1;
    } else {
      j := Latest(lines, k, n - 1);
    }
  }

  /** The reading loop computes the declarative reading, for every list of lines. */
  lemma ReadLinesDeclared(matches: Matcher, sig: Names.Signature, lines: seq<string>)
    ensures ReadLines(matches, sig, lines, START) == DeclaredAssigns(matches, sig, lines, |lines|)
  {
    ReadLinesFrom(matches, sig, lines, 0, START);
    assert lines[0..] == lines;
  }

  lemma {:induction false} ReadLinesFrom(
      matches: Matcher, sig: Names.Signature, lines: seq<string>, n: nat, s: Section)
    requires n <= |lines|
    requires s.relevant <==> ForUs(matches, lines, n)
    requires s.inFilenames <==> InGroup(lines, n)
    ensures DeclaredAssigns(matches, sig, lines, n) + ReadLines(matches, sig, lines[n..], s)
         == DeclaredAssigns(matches, sig, lines, |lines|)
    decreases |lines| - n
  {
    hide ForUs, InGroup, ReadLines, DeclaredAssigns, LineEffect, NextSection;
    if n < |lines| {
      SectionStep(matches, lines, n, s);
      var next := NextSection(matches, s, lines[n]);
      DeclaredStep(matches, sig, lines, n, s);
      ReadStep(matches, sig, lines, n, s);
      ReadLinesFrom(matches, sig, lines, n + 1, next);
      Reassociate(DeclaredAssigns(matches, sig, lines, n), LineEffect(sig, s, lines[n]),
        ReadLines(matches, sig, lines[n + 1..], next));
    } else {
      assert lines[n..] == [];
      ReadNone(matches, sig, s);
    }
  }

  lemma SectionStep(matches: Matcher, lines: seq<string>, n: nat, s: Section)
    requires n < |lines|
    requires (s.relevant <==> ForUs(matches, lines, n)) && (s.inFilenames <==> InGroup(lines, n))
    ensures var next := NextSection(matches, s, lines[n]);
            && (next.relevant <==> ForUs(matches, lines, n + 1))
            && (next.inFilenames <==> InGroup(lines, n + 1))
  {
    hide ForUs, InGroup, LineMatches;
    if IsFilenameLine(lines[n]) {
      ForUsFilename(matches, lines, n);
    } else {
      ForUsSkip(matches, lines, n);
    }
  }

  lemma Reassociate(a: seq<Assign>, b: seq<Assign>, c: seq<Assign>)
    ensures (a + b) + c == a + (b + c)
  {
  }

  lemma ReadNone(matches: Matcher, sig: Names.Signature, s: Section)
    ensures ReadLines(matches, sig, [], s) == []
  {
  }

  lemma ReadStep(matches: Matcher, sig: Names.Signature, lines: seq<string>, n: nat, s: Section)
    requires n < |lines|
    ensures ReadLines(matches, sig, lines[n..], s) ==
            LineEffect(sig, s, lines[n]) + ReadLines(matches, sig, lines[n + 1..], NextSection(matches, s, lines[n]))
  {
    hide LineEffect, NextSection;
    assert lines[n..][1..] == lines[n + 1..];
  }

  lemma DeclaredStep(matches: Matcher, sig: Names.Signature, lines: seq<string>, n: nat, s: Section)
    requires n < |lines| && (s.relevant <==> ForUs(matches, lines, n))
    ensures DeclaredAssigns(matches, sig, lines, n + 1) ==
            DeclaredAssigns(matches, sig, lines, n) + LineEffect(sig, s, lines[n])
  {
    hide ForUs, LineAssign;
  }

  // ----- Line ends -----

  predicate OneLine(line: string) {
    CR !in line && LF !in line
  }

  /** What is left of lines after leading white space and invisible lines are dropped. */
  function Visible(ls: seq<string>): seq<string> {
    if ls == [] then []
    else (if SkipSpace(ls[0]) == "" then [] else [SkipSpace(ls[0])]) + Visible(ls[1..])
  }

  lemma SameLines(x: string, y: string)
    requires SkipSpace(x) == SkipSpace(y)
    ensures Lines(x) == Lines(y)
  {
    assert NextLine(x) == NextLine(y);
  }

  lemma LinesSkipSpace(a: string, b: string)
    requires AllSpace(a)
    ensures Lines(a + b) == Lines(b)
  {
    SkipSpacePrefix(a, b);
    SameLines(a + b, b);
  }

  /** SkipSpace acts inside the first line only. */
  lemma SkipSpaceLine(line: string, tail: string)
    requires SkipSpace(line) != ""
    ensures SkipSpace(line + tail) == SkipSpace(line) + tail
    ensures OneLine(line) ==> OneLine(SkipSpace(line))
  {
    var v := SkipSpace(line);
    SkipSpaceSuffix(line);
    var a := line[..|line| - |v|];
    assert line + tail == a + (v + tail);
    SkipSpacePrefix(a, v + tail);
  }

  /** Cutting one visible line off the front, whichever line end follows it. */
  lemma CutLine(line: string, eol: string, rest: string)
    requires OneLine(line) && SkipSpace(line) != ""
    requires eol == [CR, LF] || eol == [CR] || (eol == [LF] && CR !in rest)
    ensures NextLine(line + eol + rest) == Cut(SkipSpace(line), Some(eol[1..] + rest))
  {
    var tail := eol + rest;
    SkipSpaceLine(line, tail);
    hide SkipSpace, NextLine;
    LineEndShift(line, eol, rest);
    CutAt(line + tail, SkipSpace(line), tail);
  }

  lemma LineEndShift(line: string, eol: string, rest: string)
    requires eol != ""
    ensures line + eol + rest == line + (eol + rest)
    ensures (eol + rest)[0] == eol[0] && (eol + rest)[1..] == eol[1..] + rest
    ensures CR !in eol && CR !in rest ==> CR !in eol + rest
  {
  }

  lemma CutAt(text: string, v: string, tail: string)
    requires SkipSpace(text) == v + tail && OneLine(v) && tail != ""
    requires tail[0] == CR || (tail[0] == LF && CR !in tail)
    ensures NextLine(text) == Cut(v, Some(tail[1..]))
  {
    IndexOfAppend(v, tail, tail[0]);
    assert (v + tail)[|v| + 1..] == (v + tail)[|v|..][1..];
  }

  lemma LinesFrom(line: string, eol: string, rest: string)
    requires OneLine(line)
    requires eol == [CR, LF] || eol == [CR] || (eol == [LF] && (CR !in rest || SkipSpace(line) == ""))
    ensures Lines(line + eol + rest) == Visible([line]) + Lines(rest)
  {
    if SkipSpace(line) == "" {
      BlankLine(line, eol);
      hide Lines;
      LinesSkipSpace(line + eol, rest);
    } else {
      CutLine(line, eol, rest);
      hide NextLine, SkipSpace;
      LinesSkipSpace(eol[1..], rest);
      assert Visible([line]) == [SkipSpace(line)];
    }
  }

  lemma BlankLine(line: string, eol: string)
    requires SkipSpace(line) == "" && (eol == [CR, LF] || eol == [CR] || eol == [LF])
    ensures AllSpace(line + eol) && Visible([line]) == []
  {
    SkipSpaceSuffix(line);
    assert line[..|line|] == line;
  }

  lemma LastLine(last: string)
    requires OneLine(last)
    ensures Lines(last) == [SkipSpace(last)]
  {
    SkipSpaceSuffix(last);
    assert OneLine(SkipSpace(last));
  }

  datatype LineEnd = Lf | CrLf | Cr

  /** One line of a text and what ends it. */
  datatype EndedLine = EndedLine(line: string, end: LineEnd)
  {
    predicate HasCR() {
      end != Lf
    }
  }

  function EndText(l: EndedLine): string {
    match l.end case Lf => [LF] case CrLf => [CR, LF] case Cr => [CR]
  }

  function MixedText(ls: seq<EndedLine>, last: string): string {
    if ls == [] then last else ls[0].line + EndText(ls[0]) + MixedText(ls[1..], last)
  }

  function LinesOf(ls: seq<EndedLine>): (texts: seq<string>)
    ensures |texts| == |ls| && forall i | 0 <= i < |ls| :: texts[i] == ls[i].line
  {
    seq(|ls|, i requires 0 <= i < |ls| => ls[i].line)
  }

  predicate AllOneLine(ls: seq<EndedLine>, last: string) {
    OneLine(last) && forall i | 0 <= i < |ls| :: OneLine(ls[i].line)
  }

  /** No visible line that ends in LF alone stands before a line that ends in CR LF or CR. */
  predicate EndsInOrder(ls: seq<EndedLine>) {
    forall i, j | 0 <= i < j < |ls| && !ls[i].HasCR() && ls[j].HasCR() :: SkipSpace(ls[i].line) == ""
  }

  /** The lines one would expect: the visible ones, left-trimmed, and what follows the last line end. */
  function ExpectedLines(ls: seq<EndedLine>, last: string): seq<string> {
    Visible(LinesOf(ls)) + [SkipSpace(last)]
  }

  lemma ExpectedCons(ls: seq<EndedLine>, last: string)
    requires ls != []
    ensures ExpectedLines(ls, last) == Visible([ls[0].line]) + ExpectedLines(ls[1..], last)
  {
    var texts := LinesOf(ls);
    assert texts[1..] == LinesOf(ls[1..]);
    VisibleCons(texts);
  }

  lemma {:induction false} ExpectedOneLine(ls: seq<EndedLine>, last: string)
    requires AllOneLine(ls, last)
    ensures forall i | 0 <= i < |ExpectedLines(ls, last)| :: OneLine(ExpectedLines(ls, last)[i])
  {
    hide ExpectedLines, SkipSpace, Visible;
    if ls == [] {
      SuffixOneLine(last);
      NoneExpected(last);
    } else {
      ExpectedOneLine(ls[1..], last);
      ExpectedCons(ls, last);
      SuffixOneLine(ls[0].line);
      VisibleOne(ls[0].line);
    }
  }

  lemma NoneExpected(last: string)
    ensures ExpectedLines([], last) == [SkipSpace(last)]
  {
    assert LinesOf([]) == [];
  }

  lemma VisibleOne(line: string)
    ensures Visible([line]) == if SkipSpace(line) == "" then [] else [SkipSpace(line)]
  {
    assert [line][1..] == [];
  }

  lemma SuffixOneLine(line: string)
    requires OneLine(line)
    ensures OneLine(SkipSpace(line))
  {
    SkipSpaceSuffix(line);
  }

  lemma {:induction false} CRSomewhere(ls: seq<EndedLine>, last: string)
    requires AllOneLine(ls, last)
    ensures CR in MixedText(ls, last) <==> exists j :: 0 <= j < |ls| && ls[j].HasCR()
  {
    if ls != [] {
      CRSomewhere(ls[1..], last);
      var rest := MixedText(ls[1..], last);
      if ls[0].HasCR() {
        assert CR in EndText(ls[0]);
      } else {
        assert EndText(ls[0]) == [LF];
      }
      assert forall j | 0 < j < |ls| :: ls[j] == ls[1..][j - 1];
      if j :| 0 <= j < |ls| - 1 && ls[1..][j].HasCR() { assert ls[j + 1].HasCR(); }
    }
  }

  /** A visible LF line before a CR: the first line that is read runs on over the LF. */
  lemma RunsOn(line: string, rest: string)
    requires OneLine(line) && SkipSpace(line) != "" && CR in rest
    ensures !OneLine(Lines(line + [LF] + rest)[0])
  {
    hide SkipSpace, Lines;
    var v, tail := SkipSpace(line), [LF] + rest;
    SkipSpaceLine(line, tail);
    LineEndShift(line, [LF], rest);
    CarriageReturnIn(rest);
    CutsBehind(line + tail, v, tail);
  }

  lemma CarriageReturnIn(rest: string)
    requires CR in rest
    ensures CR in [LF] + rest
  {
    var k :| 0 <= k < |rest| && rest[k] == CR;
    assert ([LF] + rest)[1 + k] == CR;
  }

  /** The first CR stands in `tail`, behind its LF: the line that is cut off contains the LF. */
  lemma CutsBehind(text: string, v: string, tail: string)
    requires SkipSpace(text) == v + tail && CR !in v && tail != "" && tail[0] == LF && CR in tail
    ensures !OneLine(Lines(text)[0])
  {
    var t := v + tail;
    assert t[|v|] == LF;
    var k :| 0 <= k < |tail| && tail[k] == CR;
    assert t[|v| + k] == CR;
    assert forall i | 0 <= i < |v| :: t[i] == v[i];
    var cr := IndexOf(t, CR);
    assert cr > |v|;
    assert NextLine(text).line == t[..cr] && t[..cr][|v|] == LF;
    hide NextLine;
  }

  /** Some line end is read wrongly: a visible LF line that a CR follows somewhere. */
  lemma FirstRunsOn(ls: seq<EndedLine>, last: string)
    requires AllOneLine(ls, last) && ls != [] && SkipSpace(ls[0].line) != "" && !ls[0].HasCR()
    requires CR in MixedText(ls[1..], last)
    ensures Lines(MixedText(ls, last)) != ExpectedLines(ls, last)
  {
    hide SkipSpace, Lines, ExpectedLines;
    RunsOn(ls[0].line, MixedText(ls[1..], last));
    ExpectedOneLine(ls, last);
  }

  lemma EndsInOrderTail(ls: seq<EndedLine>)
    requires ls != []
    ensures EndsInOrder(ls) <==>
      && EndsInOrder(ls[1..])
      && (SkipSpace(ls[0].line) == "" || ls[0].HasCR() || forall j | 0 < j < |ls| :: !ls[j].HasCR())
  {
    hide SkipSpace;
    var rest := ls[1..];
    assert forall j | 0 < j < |ls| :: ls[j] == rest[j - 1];
    if EndsInOrder(rest) && (SkipSpace(ls[0].line) == "" || ls[0].HasCR() || forall j | 0 < j < |ls| :: !ls[j].HasCR()) {
      forall i, j | 0 <= i < j < |ls| && !ls[i].HasCR() && ls[j].HasCR() ensures SkipSpace(ls[i].line) == "" {
        if i > 0 { assert rest[i - 1] == ls[i] && rest[j - 1] == ls[j]; }
      }
    }
    if EndsInOrder(ls) {
      forall i, j | 0 <= i < j < |rest| && !rest[i].HasCR() && rest[j].HasCR() ensures SkipSpace(rest[i].line) == "" {
        assert ls[i + 1] == rest[i] && ls[j + 1] == rest[j];
      }
    }
  }

  /** The line ends of a text may differ: LF, CR LF or CR. Its lines are read as one would expect if and only
      if no visible line that ends in LF alone stands before one that ends in CR LF or CR. */
  lemma {:induction false} LineEnds(ls: seq<EndedLine>, last: string)
    requires AllOneLine(ls, last)
    ensures Lines(MixedText(ls, last)) == ExpectedLines(ls, last) <==> EndsInOrder(ls)
  {
    hide Lines, ExpectedLines, EndsInOrder, SkipSpace;
    if ls == [] {
      LastLine(last);
      NoneExpected(last);
      InOrderEmpty();
    } else {
      var l, rest := ls[0], MixedText(ls[1..], last);
      EndsInOrderTail(ls);
      CRSomewhere(ls[1..], last);
      assert forall j | 0 < j < |ls| :: ls[j] == ls[1..][j - 1];
      if SkipSpace(l.line) != "" && !l.HasCR() && CR in rest {
        FirstRunsOn(ls, last);
        assert !EndsInOrder(ls);
      } else {
        LineEnds(ls[1..], last);
        LinesFrom(l.line, EndText(l), rest);
        ExpectedCons(ls, last);
        SamePrefix(Visible([l.line]), Lines(rest), ExpectedLines(ls[1..], last));
        if CR !in rest {
          assert forall j | 0 < j < |ls| :: !ls[j].HasCR();
        }
      }
    }
  }

  lemma InOrderEmpty()
    ensures EndsInOrder([])
  {
  }

  lemma SamePrefix(a: seq<string>, b: seq<string>, c: seq<string>)
    ensures a + b == a + c <==> b == c
  {
    assert (a + b)[|a|..] == b && (a + c)[|a|..] == c;
  }

  /** Lines that all end in LF. */
  function LfLines(ls: seq<string>): (r: seq<EndedLine>)
    ensures |r| == |ls| && forall i | 0 <= i < |ls| :: r[i] == EndedLine(ls[i], Lf)
  {
    seq(|ls|, i requires 0 <= i < |ls| => EndedLine(ls[i], Lf))
  }

  lemma LfLinesInOrder(ls: seq<string>)
    ensures EndsInOrder(LfLines(ls)) && LinesOf(LfLines(ls)) == ls
  {
  }

  /** The lines of a text that uses LF only. */
  lemma LfLinesRead(ls: seq<string>)
    requires forall i | 0 <= i < |ls| :: OneLine(ls[i])
    ensures Lines(MixedText(LfLines(ls), "")) == Visible(ls) + [""]
  {
    hide Lines, MixedText, EndsInOrder, Visible, LfLines, LinesOf, OneLine;
    LfLinesInOrder(ls);
    NothingLeft();
    assert AllOneLine(LfLines(ls), "");
    LineEnds(LfLines(ls), "");
  }

  lemma NothingLeft()
    ensures OneLine("") && SkipSpace("") == ""
  {
  }

  lemma VisibleCons(ls: seq<string>)
    requires ls != []
    ensures Visible(ls) == Visible([ls[0]]) + Visible(ls[1..])
  {
    assert [ls[0]][1..] == [];
  }

  /** Hence two texts with the same lines make the same assignments, whatever their line ends, as long as
      each keeps its line ends in order: LF throughout, CR LF throughout, or CR LF before LF. */
  lemma LineEndsAgree(matches: Matcher, sig: Names.Signature, a: seq<EndedLine>, b: seq<EndedLine>, last: string)
    requires AllOneLine(a, last) && LinesOf(a) == LinesOf(b) && EndsInOrder(a) && EndsInOrder(b)
    requires NUL !in last && forall i | 0 <= i < |a| :: NUL !in a[i].line
    ensures TextAssigns(matches, sig, MixedText(a, last)) == TextAssigns(matches, sig, MixedText(b, last))
  {
    assert forall i | 0 <= i < |b| :: b[i].line == LinesOf(b)[i] == a[i].line;
    MixedNoNul(a, last);
    MixedNoNul(b, last);
    LineEnds(a, last);
    LineEnds(b, last);
  }

  lemma {:induction false} MixedNoNul(ls: seq<EndedLine>, last: string)
    requires NUL !in last && forall i | 0 <= i < |ls| :: NUL !in ls[i].line
    ensures NUL !in MixedText(ls, last)
  {
    if ls != [] { MixedNoNul(ls[1..], last); }
  }

  /** An LF line before a CR LF line: the second assignment is lost in the value of the first. */
  lemma MixedLineEnds()
    ensures var ls := [EndedLine("--x=1", Lf), EndedLine("--y=2", CrLf)];
            && MixedText(ls, "") == "--x=1" + [LF] + "--y=2" + [CR, LF]
            && Lines(MixedText(ls, "")) == ["--x=1" + [LF] + "--y=2", ""]
            && ExpectedLines(ls, "") == ["--x=1", "--y=2", ""]
  {
    var ls := [EndedLine("--x=1", Lf), EndedLine("--y=2", CrLf)];
    var line := "--x=1" + [LF] + "--y=2";
    var text := MixedText(ls, "");
    assert ls[1..] == [ls[1]] && ls[1..][1..] == [];
    assert text == line + [CR, LF];
    assert SkipSpace(text) == line + [CR, LF];
    assert forall i | 0 <= i < |line| :: line[i] == '-' || line[i] == '=' || line[i] == LF || '1' <= line[i] <= 'y';
    CutAtCR(text, line, [LF]);
    LinesSkipSpace([LF], "");
    assert [LF] + "" == [LF];
    LastLine("");
    ExpectedTwo(ls);
  }

  lemma CutAtCR(text: string, line: string, rest: string)
    requires SkipSpace(text) == line + [CR] + rest && CR !in line
    ensures NextLine(text) == Cut(line, Some(rest))
  {
    var tail := [CR] + rest;
    assert line + [CR] + rest == line + tail && tail[1..] == rest;
    IndexOfAppend(line, tail, CR);
    assert (line + tail)[|line| + 1..] == (line + tail)[|line|..][1..];
  }

  lemma ExpectedTwo(ls: seq<EndedLine>)
    requires ls == [EndedLine("--x=1", Lf), EndedLine("--y=2", CrLf)]
    ensures ExpectedLines(ls, "") == ["--x=1", "--y=2", ""]
  {
    assert ls[1..] == [ls[1]] && ls[1..][1..] == [];
    ExpectedCons(ls, "");
    ExpectedCons(ls[1..], "");
    NoneExpected("");
    VisibleOne("--x=1");
    VisibleOne("--y=2");
    assert SkipSpace("--x=1") == "--x=1" && SkipSpace("--y=2") == "--y=2" && SkipSpace("") == "";
  }
}
