/** DescribeOneFlag of gflags_reporting.cc: the help text of a flag, broken into lines. */
module Reporting {
  import opened Text
  import Values
  import Registry

  const LINE_LENGTH: nat := 80
  const INDENT: string := "      "

  /** StringAppendF(&final_string, "\n      ") */
  function NewLine(s: string): (r: string)
    ensures r != "" && IsSpace(r[|r| - 1])
  {
    s + [LF] + INDENT
  }

  // ----- Words -----

  function WordLength(s: string): (n: nat)
    ensures n <= |s|
    ensures forall i | 0 <= i < n :: !IsSpace(s[i])
    ensures n < |s| ==> IsSpace(s[n])
  {
    if s == "" || IsSpace(s[0]) then 0 else 1 + WordLength(s[1..])
  }

  /** The words of a text: its maximal pieces without white space. */
  function Words(s: string): seq<string>
    decreases |s|
  {
    var t := SkipSpace(s);
    if t == "" then []
    else
      SkipSpaceSuffix(s);
      [t[..WordLength(t)]] + Words(t[WordLength(t)..])
  }

  /** No word runs across the boundary between `a` and `b`. */
  predicate BrokenAt(a: string, b: string) {
    a == "" || b == "" || IsSpace(a[|a| - 1]) || IsSpace(b[0])
  }

  /** Words, one at a time: white space, a word, the rest. */
  lemma WordsStep(spaces: string, t: string)
    requires AllSpace(spaces) && t != "" && !IsSpace(t[0])
    ensures Words(spaces + t) == [t[..WordLength(t)]] + Words(t[WordLength(t)..])
  {
    SkipSpacePrefix(spaces, t);
    assert SkipSpace(t) == t;
  }

  lemma {:induction false} WordsConcat(a: string, b: string)
    requires BrokenAt(a, b)
    ensures Words(a + b) == Words(a) + Words(b)
    decreases |a|
  {
    hide Words, SkipSpace, WordLength, AllSpace;
    var t := SkipSpace(a);
    SkipSpaceSuffix(a);
    var spaces := a[..|a| - |t|];
    if t == "" {
      assert spaces == a;
      WordsOfSpace(a);
      WordsAfterSpace(a, b);
    } else {
      assert a == spaces + t && a + b == spaces + (t + b);
      WordsStep(spaces, t);
      WordLengthConcat(t, b);
      var n := WordLength(t);
      Shifted(t, b, n);
      WordsConcat(t[n..], b);
      FirstWord(spaces, t, b, n);
    }
  }

  lemma FirstWord(spaces: string, t: string, b: string, n: nat)
    requires AllSpace(spaces) && t != "" && !IsSpace(t[0])
    requires n == WordLength(t) == WordLength(t + b)
    requires Words(t[n..] + b) == Words(t[n..]) + Words(b)
    ensures Words(spaces + (t + b)) == Words(spaces + t) + Words(b)
  {
    hide Words, WordLength;
    WordsStep(spaces, t);
    WordsStep(spaces, t + b);
    Shifted(t, b, n);
  }

  lemma Shifted(t: string, b: string, n: nat)
    requires n <= |t|
    ensures (t + b)[..n] == t[..n] && (t + b)[n..] == t[n..] + b
    ensures BrokenAt(t, b) ==> BrokenAt(t[n..], b)
  {
  }

  lemma WordsAfterSpace(a: string, b: string)
    requires AllSpace(a)
    ensures Words(a + b) == Words(b)
  {
    SkipSpacePrefix(a, b);
  }

  lemma WordLengthConcat(t: string, b: string)
    requires BrokenAt(t, b) && t != "" && !IsSpace(t[0])
    ensures WordLength(t + b) == WordLength(t) && WordLength(t) > 0
  {
    assert forall i | 0 <= i < |t| :: (t + b)[i] == t[i];
    assert b != "" ==> (t + b)[|t|] == b[0];
  }

  lemma WordsOfSpace(s: string)
    requires AllSpace(s)
    ensures Words(s) == []
  {
    SkipSpacePrefix(s, "");
    assert s + "" == s;
  }

  predicate ShortWords(s: string, n: nat) {
    forall i | 0 <= i < |Words(s)| :: |Words(s)[i]| <= n
  }

  /** A piece of `s` without white space lies within one word. */
  lemma {:induction false} PieceWithinWord(s: string, i: nat, j: nat, n: nat)
    requires i < j <= |s| && (forall k | i <= k < j :: !IsSpace(s[k])) && ShortWords(s, n)
    ensures j - i <= n
    decreases |s|
  {
    SkipSpaceSuffix(s);
    hide Words, SkipSpace;
    var t := SkipSpace(s);
    var p := |s| - |t|;
    var m := WordLength(t);
    assert s == s[..p] + t;
    assert !IsSpace(s[i]);
    assert p <= i;
    WordsStep(s[..p], t);
    assert |Words(s)[0]| == m;
    if i < p + m {
      assert p + m < |s| ==> s[p + m] == t[m];
    } else {
      var rest := t[m..];
      assert forall k | 0 <= k < |rest| :: rest[k] == s[p + m + k];
      assert forall k | 0 <= k < |Words(rest)| :: Words(rest)[k] == Words(s)[k + 1];
      PieceWithinWord(rest, i - p - m, j - p - m, n);
    }
  }

  // ----- Lines -----

  /** The length of the line at the end of `s`: the column that `s` leads to. */
  function TailLength(s: string): nat {
    if s == "" || s[|s| - 1] == LF then 0 else 1 + TailLength(s[..|s| - 1])
  }

  /** No place of `s` is in column 80 or beyond: every line has fewer than 80 characters. */
  ghost predicate Fits(s: string) {
    forall n | 0 <= n <= |s| :: TailLength(s[..n]) < 80
  }

  lemma {:induction false} TailBound(s: string, t: string)
    ensures TailLength(s + t) <= TailLength(s) + |t|
  {
    if t == "" {
      assert s + t == s;
    } else {
      var u := t[..|t| - 1];
      assert (s + t)[..|s + t| - 1] == s + u;
      TailBound(s, u);
    }
  }

  lemma FitsAppend(s: string, t: string)
    requires Fits(s) && TailLength(s) + |t| < LINE_LENGTH
    ensures Fits(s + t) && TailLength(s + t) <= TailLength(s) + |t|
  {
    TailBound(s, t);
    forall n | 0 <= n <= |s + t| ensures TailLength((s + t)[..n]) < LINE_LENGTH {
      if n <= |s| {
        assert (s + t)[..n] == s[..n];
      } else {
        assert (s + t)[..n] == s + t[..n - |s|];
        TailBound(s, t[..n - |s|]);
      }
    }
  }

  lemma FitsLineEnd(s: string)
    requires Fits(s)
    ensures Fits(s + [LF]) && TailLength(s + [LF]) == 0
  {
    var u := s + [LF];
    forall n | 0 <= n <= |u| ensures TailLength(u[..n]) < LINE_LENGTH {
      if n <= |s| { assert u[..n] == s[..n]; } else { assert u[..n] == u; }
    }
  }

  lemma FitsNewLine(s: string)
    requires Fits(s)
    ensures Fits(NewLine(s)) && TailLength(NewLine(s)) <= 6
  {
    FitsLineEnd(s);
    FitsAppend(s + [LF], INDENT);
  }

  // ----- The wrapping loop -----

  /** The last white space of the line, searched backwards; 0 when there is none behind the first
      character. */
  method LastSpace(rest: string, last: nat) returns (space: nat)
    requires last < |rest|
    ensures space <= last && forall k | space < k <= last :: !IsSpace(rest[k])
    ensures space > 0 ==> IsSpace(rest[space])
  {
    space := last;
    while space > 0 && !IsSpace(rest[space])
      invariant space <= last && forall k | space < k <= last :: !IsSpace(rest[k])
    {
      space := space - 1;
    }
  }

  lemma WordsAround(line: string, gap: string, later: string)
    requires gap != "" && AllSpace(gap)
    ensures Words(line + (gap + later)) == Words(line) + Words(later)
  {
    assert IsSpace(gap[0]) && (gap + later)[0] == gap[0];
    hide Words, AllSpace, IsSpace;
    WordsAfterSpace(gap, later);
    WordsConcat(line, gap + later);
  }

  /** Splitting off a line at the white space between `k` and `next`. */
  lemma WordsBreak(rest: string, k: nat, next: nat)
    requires k < next <= |rest| && AllSpace(rest[k..next])
    ensures Words(rest) == Words(rest[..k]) + Words(rest[next..])
  {
    hide Words, AllSpace;
    assert rest[..k] + (rest[k..next] + rest[next..]) == rest;
    WordsAround(rest[..k], rest[k..next], rest[next..]);
  }

  /** The words so far when a line and a line end are added. */
  lemma WordsLine(final: string, line: string)
    requires final == "" || IsSpace(final[|final| - 1])
    ensures Words(final + line) == Words(final) + Words(line)
    ensures Words(NewLine(final + line)) == Words(final) + Words(line)
  {
    hide Words;
    WordsConcat(final, line);
    var end := [LF] + INDENT;
    WordsConcat(final + line, end);
    WordsOfSpace(end);
    assert NewLine(final + line) == final + line + end;
  }

  lemma SomethingLeft(rest: string, k: nat, next: nat)
    requires k < next <= |rest| && AllSpace(rest[k..next]) && !IsSpace(rest[|rest| - 1])
    ensures next < |rest|
  {
    assert rest[k..next][next - 1 - k] == rest[next - 1];
  }

  lemma LineEnded(final: string, line: string, charsInLine: nat, short: bool)
    requires charsInLine + |line| < LINE_LENGTH && (final == "" || IsSpace(final[|final| - 1]))
    requires short ==> Fits(final) && TailLength(final) <= charsInLine
    ensures Words(final + line) == Words(final) + Words(line)
    ensures Words(NewLine(final + line)) == Words(final) + Words(line)
    ensures short ==>
      var ended := NewLine(final + line);
      Fits(ended) && TailLength(ended) <= 6
  {
    hide Words, Fits, TailLength, NewLine, IsSpace;
    WordsLine(final, line);
    if short {
      FitsAppend(final, line);
      FitsNewLine(final + line);
    }
  }

  /** One turn of the loop: a line and its line end are added, words stay in order. */
  lemma LineAdded(final: string, rest: string, k: nat, next: nat, charsInLine: nat, short: bool)
    requires k < next <= |rest| && AllSpace(rest[k..next])
    requires charsInLine + k < LINE_LENGTH && (final == "" || IsSpace(final[|final| - 1]))
    requires short ==> Fits(final) && TailLength(final) <= charsInLine && !IsSpace(rest[|rest| - 1])
    ensures var line := final + rest[..k];
            && Words(line) + Words(rest[next..]) == Words(final) + Words(rest)
            && Words(NewLine(line)) == Words(line)
            && (short ==> Fits(NewLine(line)) && TailLength(NewLine(line)) <= 6)
    ensures short ==> rest[next..] != ""
  {
    hide Words, Fits, TailLength, NewLine, AllSpace, IsSpace;
    WordsBreak(rest, k, next);
    var line, later := rest[..k], rest[next..];
    if short { SomethingLeft(rest, k, next); }
    assert |later| == |rest| - next;
    LineEnded(final, line, charsInLine, short);
    Regroup(Words(final), Words(line), Words(later));
  }

  lemma Regroup(a: seq<string>, b: seq<string>, c: seq<string>)
    ensures (a + b) + c == a + (b + c)
  {
  }

  /** The first line end of `rest` is in reach: in column 79 at most, when the line begins in `column`. */
  predicate EndInReach(rest: string, column: nat) {
    LF in rest && column + IndexOf(rest, LF) < 80
  }

  /** The rest of the text stays on the line. */
  predicate StaysOnLine(rest: string, column: nat) {
    LF !in rest && column + |rest| < 80
  }

  /** A line ends at `k`: at the first line end if it is in reach, and otherwise at the last white space in
      reach, which is skipped as far as `next`. */
  predicate Breaks(rest: string, column: nat, k: nat, next: nat) {
    && k < next <= |rest| && !StaysOnLine(rest, column) && column + k < 80
    && if EndInReach(rest, column) then k == IndexOf(rest, LF) && next == k + 1
       else
         && k > 0 && (forall m | k <= m < next :: IsSpace(rest[m]))
         && (next < |rest| ==> !IsSpace(rest[next]))
         && (forall m | k < m < |rest| && column + m < 80 :: !IsSpace(rest[m]))
  }

  /** There is neither a line end nor a white space in reach, but perhaps in front. */
  predicate CannotBreak(rest: string, column: nat) {
    && !StaysOnLine(rest, column) && !EndInReach(rest, column)
    && forall m | 0 < m < |rest| && column + m < 80 :: !IsSpace(rest[m])
  }

  /** `final` is `rest` broken into lines that are filled as far as they can be; all but the first begin
      with six blanks. What cannot be broken is left as it is. */
  ghost predicate WrapsTo(rest: string, column: nat, final: string)
    decreases |rest|
  {
    || ((StaysOnLine(rest, column) || CannotBreak(rest, column)) && final == rest)
    || exists k: nat, next: nat | Breaks(rest, column, k, next) ::
         if next == |rest| then final == rest[..k]
         else
           && |final| >= k + 7 && final[..k + 7] == rest[..k] + "\n      "
           && WrapsTo(rest[next..], 6, final[k + 7..])
  }

  lemma WrapsBreak(rest: string, column: nat, k: nat, next: nat, tail: string)
    requires Breaks(rest, column, k, next) && next < |rest| && WrapsTo(rest[next..], 6, tail)
    ensures WrapsTo(rest, column, NewLine(rest[..k]) + tail)
  {
    assert k < next;
    hide Breaks;
    var line := NewLine(rest[..k]);
    assert line == rest[..k] + "\n      " && |line| == k + 7;
    assert (line + tail)[..k + 7] == line && (line + tail)[k + 7..] == tail;
  }

  /** However the rest is wrapped, it completes the wrapping of the whole. */
  ghost predicate Completes(main: string, final: string, rest: string, column: nat) {
    forall tail | WrapsTo(rest, column, tail) :: WrapsTo(main, 0, final + tail)
  }

  lemma CompletesStart(main: string)
    ensures Completes(main, "", main, 0)
  {
    hide WrapsTo;
    forall tail | WrapsTo(main, 0, tail) ensures WrapsTo(main, 0, "" + tail) {
      assert "" + tail == tail;
    }
  }

  lemma CompletesBreak(main: string, final: string, rest: string, column: nat, k: nat, next: nat)
    requires Completes(main, final, rest, column) && Breaks(rest, column, k, next)
    ensures next < |rest| ==> Completes(main, NewLine(final + rest[..k]), rest[next..], 6)
    ensures next == |rest| ==> WrapsTo(main, 0, final + rest[..k])
  {
    if next < |rest| {
      hide WrapsTo, Breaks;
      forall tail | WrapsTo(rest[next..], 6, tail) ensures WrapsTo(main, 0, NewLine(final + rest[..k]) + tail) {
        WrapsBreak(rest, column, k, next, tail);
        LineMoved(final, rest[..k], tail);
      }
    } else {
      assert WrapsTo(rest, column, rest[..k]);
    }
  }

  lemma LineMoved(final: string, line: string, tail: string)
    ensures final + (NewLine(line) + tail) == NewLine(final + line) + tail
  {
  }

  lemma CompletesRest(main: string, final: string, rest: string, column: nat)
    requires Completes(main, final, rest, column) && (StaysOnLine(rest, column) || CannotBreak(rest, column))
    ensures WrapsTo(main, 0, final + rest)
  {
  }

  /** Where a line ends, in one turn of the loop. Nothing is found when no white space is in reach. */
  method FindBreak(rest: string, charsInLine: nat) returns (k: nat, next: nat, found: bool)
    requires charsInLine <= 6
    requires LF !in rest ==> charsInLine + |rest| >= LINE_LENGTH
    ensures found ==>
      && k < next <= |rest| && AllSpace(rest[k..next]) && charsInLine + k < LINE_LENGTH
    ensures found ==> Breaks(rest, charsInLine, k, next)
    ensures !found ==> CannotBreak(rest, charsInLine)
    ensures !found ==>
      var last := LINE_LENGTH - charsInLine - 1;
      last < |rest| && forall m | 0 < m <= last :: !IsSpace(rest[m])
  {
    var newline := IndexOf(rest, LF);
    if newline < |rest| && newline < LINE_LENGTH - charsInLine {
      assert IsSpace(LF) && rest[newline..newline + 1] == [LF];
      return newline, newline + 1, true;
    }
    var last := LINE_LENGTH - charsInLine - 1;
    k := LastSpace(rest, last);
    if k == 0 {
      return 0, 0, false;
    }
    next := SkipSpaceFrom(rest, k);
    return k, next, true;
  }

  predicate IsSuffix(rest: string, main: string) {
    |rest| <= |main| && rest == main[|main| - |rest|..]
  }

  lemma SuffixDrop(main: string, rest: string, n: nat)
    requires IsSuffix(rest, main) && n <= |rest|
    ensures IsSuffix(rest[n..], main)
    ensures NUL !in rest ==> NUL !in rest[n..]
    ensures n < |rest| ==> rest[n..][|rest[n..]| - 1] == rest[|rest| - 1]
  {
  }

  lemma AlwaysFound(main: string, rest: string, last: nat)
    requires IsSuffix(rest, main) && 73 <= last < |rest|
    requires forall m | 0 < m <= last :: !IsSpace(rest[m])
    ensures !ShortMain(main)
  {
    if ShortMain(main) {
      var off := |main| - |rest|;
      assert forall k | off + 1 <= k < off + 1 + last :: main[k] == rest[k - off];
      PieceWithinWord(main, off + 1, off + 1 + last, 72);
    }
  }

  /** What the loop of DescribeOneFlag keeps: `rest` is the text from c_string on, the words are those
      of the whole, and short words have left no line of 80 characters. */
  ghost predicate Laid(main: string, final: string, rest: string, charsInLine: nat) {
    && IsSuffix(rest, main) && NUL !in rest
    && (final == "" || IsSpace(final[|final| - 1]))
    && Words(final) + Words(rest) == Words(main)
    && Completes(main, final, rest, charsInLine)
    && (ShortMain(main) ==>
          rest != "" && !IsSpace(rest[|rest| - 1]) && Fits(final) && TailLength(final) <= charsInLine)
  }

  predicate ShortMain(main: string) {
    ShortWords(main, 72) && main != "" && !IsSpace(main[|main| - 1])
  }

  /** What the loop of DescribeOneFlag ends with. */
  ghost predicate Wrapped(main: string, final: string, charsInLine: nat) {
    && Words(final) == Words(main) && WrapsTo(main, 0, final)
    && (ShortMain(main) ==> Fits(final) && TailLength(final) <= charsInLine)
  }

  lemma RestAdded(main: string, final: string, rest: string, charsInLine: nat)
    requires Laid(main, final, rest, charsInLine)
    ensures Words(final + rest) == Words(main)
    ensures StaysOnLine(rest, charsInLine) ==> Wrapped(main, final + rest, charsInLine + |rest|)
    ensures CannotBreak(rest, charsInLine) ==> WrapsTo(main, 0, final + rest)
  {
    hide Words, Fits, ShortMain, TailLength, IsSuffix, WrapsTo, Completes;
    if StaysOnLine(rest, charsInLine) || CannotBreak(rest, charsInLine) {
      CompletesRest(main, final, rest, charsInLine);
    }
    hide CannotBreak;
    WordsLine(final, rest);
    if ShortMain(main) && charsInLine + |rest| < LINE_LENGTH { FitsAppend(final, rest); }
  }

  /** The rest of a turn of the loop, when the text does not fit on the line. */
  method BreakLine(ghost main: string, finalString: string, rest: string, chars: nat, left: int)
    returns (final: string, later: string, charsInLine: nat, charsLeft: int, done: bool)
    requires Laid(main, finalString, rest, chars) && chars <= 6 && left == |rest|
    requires LF !in rest ==> chars + |rest| >= LINE_LENGTH
    ensures done ==> Wrapped(main, final, charsInLine)
    ensures !done ==>
      && |later| < |rest| && charsInLine == 6 && charsLeft == |later|
      && Laid(main, final, later, charsInLine)
  {
    hide Words, Fits, ShortMain, TailLength, AllSpace, NewLine, Breaks, CannotBreak, IsSuffix, WrapsTo, Completes;
    var k, next, found := FindBreak(rest, chars);
    if !found {
      RestAdded(main, finalString, rest, chars);
      AlwaysFound(main, rest, LINE_LENGTH - chars - 1);
      return finalString + rest, "", LINE_LENGTH, left, true;
    }
    LineAdded(finalString, rest, k, next, chars, ShortMain(main));
    SuffixDrop(main, rest, next);
    CompletesBreak(main, finalString, rest, chars, k, next);
    final := finalString + rest[..k];
    charsInLine := if rest[k] == LF then chars else chars + k;
    charsLeft := left - next;
    later := rest[next..];
    if later == "" {
      WordsOfSpace("");
      return final, later, charsInLine, charsLeft, true;
    }
    return NewLine(final), later, 6, charsLeft, false;
  }

  /** The loop of DescribeOneFlag over the main part. It keeps all words in order. With words of at
      most 72 characters no line reaches 80 characters. Lines are filled as far as they can be, and a text
      that fits in one line stays as it is. */
  method WrapMain(main: string) returns (final: string, charsInLine: nat)
    requires NUL !in main
    ensures Words(final) == Words(main)
    ensures ShortMain(main) ==> Fits(final) && TailLength(final) <= charsInLine
    ensures WrapsTo(main, 0, final)
    ensures LF !in main && |main| < 80 ==> final == main && charsInLine == |main|
  {
    assert IsSuffix(main, main);
    EmptyFits();
    CompletesStart(main);
    var rest := main;
    var charsLeft := |main|;
    final, charsInLine := "", 0;
    assert Laid(main, final, rest, charsInLine);
    while true
      invariant Laid(main, final, rest, charsInLine) && charsLeft == |rest|
      invariant charsInLine == 0 || charsInLine == 6
      invariant LF !in main && |main| < LINE_LENGTH ==> final == "" && charsInLine == 0 && rest == main
      decreases |rest|
    {
      hide Words, Fits, ShortMain, TailLength, IsSuffix, WrapsTo, Completes, CannotBreak;
      assert charsLeft == |CStr(rest)|;
      if LF !in rest && charsInLine + charsLeft < LINE_LENGTH {
        RestAdded(main, final, rest, charsInLine);
        final := final + rest;
        charsInLine := charsInLine + charsLeft;
        return;
      }
      var done;
      final, rest, charsInLine, charsLeft, done :=
        BreakLine(main, final, rest, charsInLine, charsLeft);
      if done {
        return;
      }
    }
  }

  lemma EmptyFits()
    ensures Fits("") && TailLength("") == 0 && Words("") == []
  {
  }

  /** `while (isspace(c_string[whitespace])) ++whitespace;` stops at the terminating NUL. */
  method SkipSpaceFrom(rest: string, k: nat) returns (next: nat)
    requires k < |rest| && IsSpace(rest[k])
    ensures k < next <= |rest| && AllSpace(rest[k..next])
    ensures next < |rest| ==> !IsSpace(rest[next])
  {
    next := k;
    while next < |rest| && IsSpace(rest[next])
      invariant k <= next <= |rest| && forall i | k <= i < next :: IsSpace(rest[i])
    {
      next := next + 1;
    }
  }

  /** What stands before one more piece: a blank if it fits on the line, else a new line. */
  function Gap(s: string, charsInLine: nat): string {
    if charsInLine + 1 + |s| >= LINE_LENGTH then [LF] + INDENT else " "
  }

  /** The piece stays on the line if it ends before column 80. */
  lemma GapText(s: string, charsInLine: nat)
    ensures Gap(s, charsInLine) == if charsInLine + 1 + |s| < 80 then " " else "\n      "
  {
  }

  /** AddString: one more piece, on this line if it fits. */
  method AddString(s: string, finalString: string, charsInLine: nat)
    returns (final: string, chars: nat)
    ensures Words(final) == Words(finalString) + Words(s)
    ensures Fits(finalString) && TailLength(finalString) <= charsInLine && |s| <= 73 ==>
      Fits(final) && TailLength(final) <= chars
    ensures final == finalString + Gap(s, charsInLine) + s
    ensures chars == |s| + if charsInLine + 1 + |s| < 80 then charsInLine + 1 else 6
  {
    hide Fits, Words;
    if charsInLine + 1 + |s| >= LINE_LENGTH {
      final := NewLine(finalString);
      chars := 6;
      if Fits(finalString) { FitsNewLine(finalString); }
    } else {
      final := finalString + " ";
      chars := charsInLine + 1;
      if Fits(finalString) && TailLength(finalString) <= charsInLine { FitsAppend(finalString, " "); }
    }
    ghost var gap := Gap(s, charsInLine);
    assert final == finalString + gap;
    WordsConcat(finalString, gap);
    WordsOfSpace(gap);
    WordsConcat(final, s);
    if Fits(final) && TailLength(final) <= chars && |s| <= 73 { FitsAppend(final, s); }
    final := final + s;
    chars := chars + |s|;
  }

  // ----- The whole description -----

  function MainPart(flag: Registry.CommandLineFlagInfo): string {
    "    -" + CStr(flag.name) + " (" + CStr(flag.description) + ")"
  }

  /** PrintStringFlagsWithQuotes */
  function Quoted(flag: Registry.CommandLineFlagInfo, text: string, value: string): string {
    if Values.TypeName(flag.flagType) == "string" then text + ": \"" + CStr(value) + "\"" else text + ": " + CStr(value)
  }

  function TypePiece(flag: Registry.CommandLineFlagInfo): string { "type: " + Values.TypeName(flag.flagType) }

  function DefaultPiece(flag: Registry.CommandLineFlagInfo): string { Quoted(flag, "default", flag.defaultValue) }

  function CurrentPiece(flag: Registry.CommandLineFlagInfo): string { Quoted(flag, "currently", flag.currentValue) }

  predicate ShortPieces(flag: Registry.CommandLineFlagInfo) {
    && |TypePiece(flag)| <= 73 && |DefaultPiece(flag)| <= 73
    && (!flag.isDefault ==> |CurrentPiece(flag)| <= 73)
  }

  /** The parts of a description, for texts without NUL. A string value stands in quotes. */
  lemma PieceTexts(flag: Registry.CommandLineFlagInfo)
    requires NUL !in flag.name && NUL !in flag.description && NUL !in flag.defaultValue && NUL !in flag.currentValue
    ensures MainPart(flag) == "    -" + flag.name + " (" + flag.description + ")"
    ensures TypePiece(flag) == match flag.flagType
      case FvBool => "type: bool"
      case FvInt32 => "type: int32"
      case FvUint32 => "type: uint32"
      case FvInt64 => "type: int64"
      case FvUint64 => "type: uint64"
      case FvString => "type: string"
    ensures DefaultPiece(flag) ==
      if flag.flagType.FvString? then "default: \"" + flag.defaultValue + "\"" else "default: " + flag.defaultValue
    ensures CurrentPiece(flag) ==
      if flag.flagType.FvString? then "currently: \"" + flag.currentValue + "\"" else "currently: " + flag.currentValue
  {
    assert "type: " + "bool" == "type: bool" && "type: " + "int32" == "type: int32";
    assert "type: " + "uint32" == "type: uint32" && "type: " + "int64" == "type: int64";
    assert "type: " + "uint64" == "type: uint64" && "type: " + "string" == "type: string";
    assert "default" + ": " == "default: " && "currently" + ": " == "currently: ";
    assert "default" + ": \"" == "default: \"" && "currently" + ": \"" == "currently: \"";
  }

  predicate IsGap(gap: string) {
    gap == " " || gap == "\n      "
  }

  /** The description is `main`, then the pieces unchanged, each behind a gap, and a line end. */
  predicate Assembled(final: string, flag: Registry.CommandLineFlagInfo, main: string, gap1: string, gap2: string, gap3: string) {
    && IsGap(gap1) && IsGap(gap2) && IsGap(gap3)
    && final == main + gap1 + TypePiece(flag) + gap2 + DefaultPiece(flag) +
                (if flag.isDefault then "" else gap3 + CurrentPiece(flag)) + [LF]
  }

  lemma MainPartEnds(flag: Registry.CommandLineFlagInfo)
    ensures NUL !in MainPart(flag)
    ensures ShortWords(MainPart(flag), 72) ==> ShortMain(MainPart(flag))
  {
    hide ShortWords;
    assert MainPart(flag)[|MainPart(flag)| - 1] == ')';
  }

  lemma LineEndAdded(final: string)
    ensures Words(final + [LF]) == Words(final)
    ensures Fits(final) ==> Fits(final + [LF])
  {
    hide Words, Fits;
    WordsConcat(final, [LF]);
    WordsOfSpace([LF]);
    if Fits(final) { FitsLineEnd(final); }
  }

  lemma AssembledParts(
      final: string, flag: Registry.CommandLineFlagInfo, main: string, gap1: string, gap2: string, gap3: string,
      second: string, third: string, fourth: string)
    requires IsGap(gap1) && IsGap(gap2) && IsGap(gap3)
    requires second == main + gap1 + TypePiece(flag) && third == second + gap2 + DefaultPiece(flag)
    requires fourth == (if flag.isDefault then third else third + gap3 + CurrentPiece(flag))
    requires final == fourth + [LF]
    ensures Assembled(final, flag, main, gap1, gap2, gap3)
  {
    hide TypePiece, DefaultPiece, CurrentPiece, IsGap;
    if !flag.isDefault { ThreeParts(third, gap3, CurrentPiece(flag)); }
  }

  lemma ThreeParts(a: string, b: string, c: string)
    ensures a + b + c == a + (b + c)
  {
  }

  lemma GapIsGap(s: string, charsInLine: nat)
    ensures IsGap(Gap(s, charsInLine))
  {
  }

  /** DescribeOneFlag: the flag's name and description with the same words in the same order, then its
      type, its default value and, if it differs, its current value, each unbroken; and lines shorter than
      80 characters as long as the words and pieces allow it. */
  method DescribeOneFlag(flag: Registry.CommandLineFlagInfo) returns (final: string)
    ensures exists main, gap1, gap2, gap3 ::
      WrapsTo(MainPart(flag), 0, main) && Words(main) == Words(MainPart(flag)) &&
      Assembled(final, flag, main, gap1, gap2, gap3)
    ensures Words(final) ==
      Words(MainPart(flag)) + Words(TypePiece(flag)) + Words(DefaultPiece(flag)) +
      (if flag.isDefault then [] else Words(CurrentPiece(flag)))
    ensures ShortWords(MainPart(flag), 72) && ShortPieces(flag) ==> Fits(final)
  {
    var main := MainPart(flag);
    MainPartEnds(flag);
    hide Words, Fits, ShortWords, ShortMain, TailLength, TypePiece, DefaultPiece, CurrentPiece, MainPart, Gap, IsGap,
      Assembled, WrapsTo;
    var chars;
    final, chars := WrapMain(main);
    ghost var wrapped, gap1 := final, Gap(TypePiece(flag), chars);
    GapIsGap(TypePiece(flag), chars);
    final, chars := AddString(TypePiece(flag), final, chars);
    ghost var second, gap2 := final, Gap(DefaultPiece(flag), chars);
    GapIsGap(DefaultPiece(flag), chars);
    final, chars := AddString(DefaultPiece(flag), final, chars);
    ghost var third, gap3 := final, Gap(CurrentPiece(flag), chars);
    GapIsGap(CurrentPiece(flag), chars);
    if !flag.isDefault {
      final, chars := AddString(CurrentPiece(flag), final, chars);
    }
    ghost var fourth := final;
    LineEndAdded(final);
    final := final + [LF];
    AssembledParts(final, flag, wrapped, gap1, gap2, gap3, second, third, fourth);
  }
}
