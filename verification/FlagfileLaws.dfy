/** What the documentation says about the lines of a flagfile, at their literal spelling. */
module FlagfileLaws {
  import opened Text
  import opened Names
  import opened Flagfile
  import opened Engine

  /** A line that can be written down in a flagfile as it is. */
  predicate Writable(line: string) {
    OneLine(line) && NUL !in line && line != "" && SkipSpace(line) == line
  }

  /** Program names as a filename line may list them. */
  predicate FileNames(words: seq<string>) {
    && words != [] && (forall i | 0 <= i < |words| :: ' ' !in words[i])
    && Writable(Join(words, ' ')) && Join(words, ' ')[0] != '#' && Join(words, ' ')[0] != '-'
  }

  /** The line `front`, a line feed, and then a flag line. */
  function Above(front: string, line: string): string {
    front + [LF] + line
  }

  lemma TwoLines(front: string, line: string)
    requires Writable(front) && Writable(line)
    ensures Lines(CStr(Above(front, line))) == [front, line]
  {
    var text := Above(front, line);
    assert NUL !in text;
    CStrEnds(text);
    hide SkipSpace, Lines, CStr;
    LinesFrom(front, [LF], line);
    LastLine(line);
    VisibleOne(front);
  }

  /** A flag line below a line of program names is carried out just for the programs that the line names. */
  lemma FilenameSelects(m: Matcher, sig: Signature, words: seq<string>, line: string)
    requires FileNames(words) && Writable(line) && line[0] == '-'
    ensures TextAssigns(m, sig, Above(Join(words, ' '), line)) ==
      if LineAssign(sig, line).Some? && exists i :: 0 <= i < |words| && m(words[i])
      then [LineAssign(sig, line).value] else []
  {
    var front := Join(words, ' ');
    SplitJoin(words, ' ');
    assert LineMatches(m, front) <==> exists i :: 0 <= i < |words| && m(words[i]);
    TwoLines(front, line);
    hide LineMatches, LineAssign, Join, Split, Lines, SkipSpace, CStr, Above;
    BelowFilenames(m, sig, front, line);
  }

  lemma BelowFilenames(m: Matcher, sig: Signature, front: string, line: string)
    requires front != "" && front[0] != '#' && front[0] != '-' && line != "" && line[0] == '-'
    ensures ReadLines(m, sig, [front, line], START) ==
      if LineMatches(m, front) && LineAssign(sig, line).Some? then [LineAssign(sig, line).value] else []
  {
    var s := Section(LineMatches(m, front), true);
    assert NextSection(m, START, front) == s by { hide LineMatches; }
    LastFlagLine(m, sig, line, s);
    assert [front, line][1..] == [line];
    hide LineMatches, LineAssign;
  }

  lemma LastFlagLine(m: Matcher, sig: Signature, line: string, s: Section)
    requires line != "" && line[0] == '-'
    ensures ReadLines(m, sig, [line], s) ==
      if s.relevant && LineAssign(sig, line).Some? then [LineAssign(sig, line).value] else []
  {
    hide LineMatches, LineAssign;
    assert [line][1..] == [];
  }

  /** A text of one flag line. */
  lemma OneFlagLine(m: Matcher, sig: Signature, line: string)
    requires Writable(line) && line[0] == '-'
    ensures TextAssigns(m, sig, line) == if LineAssign(sig, line).Some? then [LineAssign(sig, line).value] else []
  {
    CStrEnds(line);
    LastLine(line);
    LastFlagLine(m, sig, line, START);
    hide Lines, SkipSpace, CStr, LineAssign, ReadLines;
  }

  lemma BelowComment(m: Matcher, sig: Signature, front: string, line: string)
    requires front != "" && front[0] == '#' && line != "" && line[0] == '-'
    ensures ReadLines(m, sig, [front, line], START) ==
      if LineAssign(sig, line).Some? then [LineAssign(sig, line).value] else []
  {
    LastFlagLine(m, sig, line, START);
    assert [front, line][1..] == [line];
    hide LineMatches, LineAssign;
  }

  /** A comment is skipped; a flag line that no filename line precedes is for every program. */
  lemma CommentSkipped(m: Matcher, sig: Signature, comment: string, line: string)
    requires Writable("#" + comment) && Writable(line) && line[0] == '-'
    ensures TextAssigns(m, sig, Above("#" + comment, line)) ==
      if LineAssign(sig, line).Some? then [LineAssign(sig, line).value] else []
  {
    var front := "#" + comment;
    assert front[0] == '#';
    TwoLines(front, line);
    hide LineAssign, Lines, SkipSpace, CStr, Above, ReadLines;
    BelowComment(m, sig, front, line);
  }

  /** `--name=value` and `-name=value` as the line of a flagfile. */
  lemma FlagLineAssigns(sig: Signature, name: string, value: string)
    requires name != "" && name[0] != '-' && '=' !in name && FindFlag(sig, name).Some?
    ensures LineAssign(sig, "--" + (name + "=" + value)) == Some(Assign(FindFlag(sig, name).value, value))
    ensures LineAssign(sig, "-" + (name + "=" + value)) == Some(Assign(FindFlag(sig, name).value, value))
  {
    assert ("--" + (name + "=" + value))[2..] == name + "=" + value;
    assert ("-" + (name + "=" + value))[1..] == name + "=" + value;
    SplitNameValue(sig, name, value);
    hide SplitArgument, FindFlag;
  }

  /** A filename line with the word `base` selects every program whose argv[0] is `base` behind some
      directory, and one with the whole path selects just that program, unless a pattern matches. */
  lemma FilenameOfProgram(w: World, dir: string, base: string, sig: Signature, words: seq<string>, line: string)
    requires w.argv0 == dir + "/" + base && '/' !in base
    requires FileNames(words) && Writable(line) && line[0] == '-' && LineAssign(sig, line).Some?
    ensures TextAssigns(ProgramMatcher(w), sig, Above(Join(words, ' '), line)) ==
      if exists i :: 0 <= i < |words| &&
           (words[i] == dir + "/" + base || words[i] == base ||
            w.fnmatch(words[i], dir + "/" + base) || w.fnmatch(words[i], base))
      then [LineAssign(sig, line).value] else []
  {
    FilenameSelects(ProgramMatcher(w), sig, words, line);
    forall i | 0 <= i < |words| { ProgramNames(w, dir, base, words[i]); }
    hide FileNames, Writable, LineAssign, Join, MatchesProgram, TextAssigns, Above;
    assert forall i | 0 <= i < |words| :: ProgramMatcher(w)(words[i]) <==> MatchesProgram(w, words[i]);
  }

  /** In particular `base` alone on a line. */
  lemma ShortNameSelects(w: World, dir: string, base: string, sig: Signature, line: string)
    requires w.argv0 == dir + "/" + base && '/' !in base && ' ' !in base
    requires Writable(base) && base[0] != '#' && base[0] != '-'
    requires Writable(line) && line[0] == '-' && LineAssign(sig, line).Some?
    ensures TextAssigns(ProgramMatcher(w), sig, Above(base, line)) == [LineAssign(sig, line).value]
  {
    assert Join([base], ' ') == base;
    FilenameOfProgram(w, dir, base, sig, [base], line);
    hide FileNames, Writable, LineAssign, Join, TextAssigns, Above;
    assert [base][0] == base;
  }
}
