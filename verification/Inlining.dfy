/** --flagfile, --fromenv and --tryfromenv mean what the documentation says: the same as writing the
    assignments they stand for on the command line. */
module Inlining {
  import Text
  import opened Flags
  import opened Names
  import opened Flagfile
  import opened Engine
  import opened ParseProofs
  import opened Argv
  import ParserSteps

  // ----- Two runs that differ in one flag only -----

  /** The same state, but for the values of flag `x` and the traces. */
  ghost predicate SameBut(x: string, s: PState, t: PState) {
    && SameShapes(s.flags, t.flags)
    && (forall n | n in s.flags && n != x :: s.flags[n] == t.flags[n])
    && s.errors == t.errors && s.undefined == t.undefined && s.stop == t.stop
  }

  lemma ApplySameBut(w: World, x: string, p: Prim, s: PState, t: PState)
    requires SameBut(x, s, t)
    ensures SameBut(x, Apply(w, SetFlagsValue, p, s), Apply(w, SetFlagsValue, p, t))
  {
    hide TryParse;
    if p.Set? && p.name in s.flags {
      assert SameShape(s.flags[p.name], t.flags[p.name]);
      SetValue(w, p.name, s.flags[p.name], p.text);
      SetValue(w, p.name, t.flags[p.name], p.text);
    }
  }

  lemma {:induction false} ApplyAllSameBut(w: World, x: string, ps: seq<Prim>, s: PState, t: PState)
    requires SameBut(x, s, t)
    ensures SameBut(x, ApplyAll(w, SetFlagsValue, ps, s), ApplyAll(w, SetFlagsValue, ps, t))
  {
    hide Apply, SameBut;
    if ps != [] {
      ApplyAllSameBut(w, x, ps[..|ps| - 1], s, t);
      ApplySameBut(w, x, ps[|ps| - 1], ApplyAll(w, SetFlagsValue, ps[..|ps| - 1], s),
                                       ApplyAll(w, SetFlagsValue, ps[..|ps| - 1], t));
    }
  }

  /** Under SET_FLAGS_VALUE the value of `x` at the start influences nothing but `x`. */
  lemma RunSameBut(w: World, depth: nat, x: string, assigns: seq<Assign>, s: PState, t: PState)
    requires SameBut(x, s, t)
    ensures SameBut(x, RunAssigns(w, depth, SetFlagsValue, assigns, s),
                       RunAssigns(w, depth, SetFlagsValue, assigns, t))
  {
    hide RunAssigns, ApplyAll;
    var a, b := s.trace, t.trace;
    assert a[|a|..] == b[|b|..] == [];
    RunAssignsInStep(w, depth, assigns, a, b, s, t);
    RunAssignsReplays(w, depth, SetFlagsValue, assigns, s);
    RunAssignsReplays(w, depth, SetFlagsValue, assigns, t);
    var r := RunAssigns(w, depth, SetFlagsValue, assigns, s);
    ApplyAllSameBut(w, x, r.trace[|a|..], s, t);
  }

  // ----- References as assignments, assignments as events -----

  function AllAssigns(w: World, sig: Signature, refs: seq<Ref>): seq<Assign> {
    if refs == [] then []
    else
      (match Expand(w, sig, refs[0]) case Assigns(inner) => inner case _ => []) +
      AllAssigns(w, sig, refs[1..])
  }

  /** Every reference leads to assignments, or to nothing at all. */
  predicate AllExpand(w: World, sig: Signature, refs: seq<Ref>) {
    forall i | 0 <= i < |refs| :: !Expand(w, sig, refs[i]).Note?
  }

  lemma {:induction false} RefsAsAssigns(w: World, depth: nat, refs: seq<Ref>, st: PState)
    requires WellFormed(st.flags) && AllExpand(w, Sig(st.flags), refs)
    ensures RunRefs(w, depth + 1, SetFlagsValue, refs, st)
         == RunAssigns(w, depth, SetFlagsValue, AllAssigns(w, Sig(st.flags), refs), st)
  {
    hide WellFormed, Sig, Expand, RunAssigns;
    var sig := Sig(st.flags);
    if refs == [] || st.stop != Running {
      ParserSteps.StoppedAssigns(w, depth, SetFlagsValue, AllAssigns(w, sig, refs));
    } else {
      var inner := match Expand(w, sig, refs[0]) case Assigns(a) => a case _ => [];
      ParserSteps.StoppedAssigns(w, depth, SetFlagsValue, []);
      ParseKeepsFlags(w, depth, SetFlagsValue, inner, st);
      RefsAsAssigns(w, depth, refs[1..], RunAssigns(w, depth, SetFlagsValue, inner, st));
      RunAssignsConcat(w, depth, SetFlagsValue, inner, AllAssigns(w, sig, refs[1..]), st);
    }
  }

  function Dos(assigns: seq<Assign>): seq<Event> {
    if assigns == [] then [] else [Do(assigns[0])] + Dos(assigns[1..])
  }

  lemma {:induction false} EventsAsAssigns(w: World, depth: nat, assigns: seq<Assign>, st: PState)
    ensures RunEvents(w, depth, Dos(assigns), st) == RunAssigns(w, depth, SetFlagsValue, assigns, st)
  {
    hide RunAssigns;
    ParserSteps.StoppedAssigns(w, depth, SetFlagsValue, assigns);
    if assigns != [] {
      assert assigns == [assigns[0]] + assigns[1..];
      RunAssignsConcat(w, depth, SetFlagsValue, [assigns[0]], assigns[1..], st);
      EventsAsAssigns(w, depth, assigns[1..], RunAssigns(w, depth, SetFlagsValue, [assigns[0]], st));
    }
  }

  lemma {:induction false} DosConcat(a: seq<Assign>, b: seq<Assign>)
    ensures Dos(a + b) == Dos(a) + Dos(b)
  {
    if a == [] {
      assert a + b == b;
    } else {
      assert (a + b)[0] == a[0] && (a + b)[1..] == a[1..] + b;
      DosConcat(a[1..], b);
    }
  }

  /** An accepted assignment to a recursive flag, all of whose references can be read, does the same
      as a command line with the assignments found there, except to the flag itself; it needs one
      more level of the stack. */
  lemma InlineRefs(w: World, depth: nat, x: string, text: string, args: seq<string>, st: PState)
    requires WellFormed(st.flags) && st.stop == Running && IsRecursive(x)
    requires Accepts(w, x, st.flags[x], text) && RefsOf(x, text).Some?
    requires AllExpand(w, Sig(st.flags), RefsOf(x, text).value)
    requires ScanArgs(Sig(st.flags), args).events
          == Dos(AllAssigns(w, Sig(st.flags), RefsOf(x, text).value))
    ensures SameBut(x, RunAssigns(w, depth + 1, SetFlagsValue, [Assign(x, text)], st),
                       RunArgs(w, depth, args, st))
  {
    hide WellFormed, Sig, RunAssigns, RunRefs, RunEvents, RefsOf, Expand, AllExpand, AllAssigns;
    var refs := RefsOf(x, text).value;
    var inner := AllAssigns(w, Sig(st.flags), refs);
    var st1 := Apply(w, SetFlagsValue, Set(x, text), st);
    ListAssigned(w, depth + 1, x, text, st);
    RefsAsAssigns(w, depth, refs, st1);
    EventsAsAssigns(w, depth, inner, st);
    RunSameBut(w, depth, x, inner, st1, st);
  }

  lemma ListAssigned(w: World, depth: nat, x: string, text: string, st: PState)
    requires WellFormed(st.flags) && st.stop == Running && IsRecursive(x)
    requires Accepts(w, x, st.flags[x], text) && RefsOf(x, text).Some?
    ensures var st1 := Apply(w, SetFlagsValue, Set(x, text), st);
            && RunAssigns(w, depth, SetFlagsValue, [Assign(x, text)], st)
            == RunRefs(w, depth, SetFlagsValue, RefsOf(x, text).value, st1)
            && WellFormed(st1.flags) && Sig(st1.flags) == Sig(st.flags) && SameBut(x, st1, st)
  {
    hide TryParse, RunRefs, RefsOf, RunAssigns;
    var f := st.flags[x];
    assert f.WellTyped();
    SetValue(w, x, f, text);
    StringAccepted(w, x, f, text);
    ParserSteps.SingleOption(w, depth, SetFlagsValue, Assign(x, text), st);
    SetKeepsTable(w, SetFlagsValue, Set(x, text), st);
  }

  // ----- --flagfile -----

  /** A flag line that names a known flag with a value, or a boolean flag. */
  predicate CarriesAssign(sig: Signature, line: string) {
    LooksLikeFlag(line) && StripDashes(line) != "" && LineAssign(sig, line).Some?
  }

  /** Comments, empty lines and flag lines that carry an assignment, and nothing else. */
  predicate SimpleLines(sig: Signature, lines: seq<string>) {
    forall i | 0 <= i < |lines| ::
      IsIgnored(lines[i]) || (IsFlagLine(lines[i]) && CarriesAssign(sig, lines[i]))
  }

  function FlagLines(lines: seq<string>): seq<string> {
    if lines == [] then []
    else (if IsFlagLine(lines[0]) then [lines[0]] else []) + FlagLines(lines[1..])
  }

  lemma {:induction false} SimpleLinesScan(m: Matcher, sig: Signature, lines: seq<string>, s: Section, more: seq<string>)
    requires SimpleLines(sig, lines) && s.relevant
    ensures ScanArgs(sig, FlagLines(lines) + more).events
         == Dos(ReadLines(m, sig, lines, s)) + ScanArgs(sig, more).events
  {
    hide KindOf, LineAssign, CarriesAssign, ScanArgs, Dos, LineEffect, NextSection;
    if lines == [] {
      assert FlagLines(lines) + more == more;
      DosEmpty();
    } else {
      var next := NextSection(m, s, lines[0]);
      LineSections(m, sig, s, lines[0]);
      SimpleLinesScan(m, sig, lines[1..], next, more);
      if IsFlagLine(lines[0]) {
        assert FlagLines(lines) == [lines[0]] + FlagLines(lines[1..]);
        assert FlagLines(lines) + more == [lines[0]] + (FlagLines(lines[1..]) + more);
        assert ReadLines(m, sig, lines, s) == LineEffect(sig, s, lines[0]) + ReadLines(m, sig, lines[1..], next);
        hide FlagLines, ReadLines;
        FlagLineScan(sig, lines[0], FlagLines(lines[1..]) + more, s, ReadLines(m, sig, lines[1..], next));
      } else {
        assert FlagLines(lines) == FlagLines(lines[1..]);
        assert ReadLines(m, sig, lines, s) == ReadLines(m, sig, lines[1..], next);
      }
    }
  }

  lemma DosEmpty()
    ensures Dos([]) == []
  {
  }

  /** An ignored line has no effect, and relevance survives every line that is not a filename. */
  lemma LineSections(m: Matcher, sig: Signature, s: Section, line: string)
    requires s.relevant && !IsFilenameLine(line)
    ensures NextSection(m, s, line).relevant
    ensures IsIgnored(line) ==> !IsFlagLine(line) && LineEffect(sig, s, line) == []
  {
  }

  lemma FlagLineScan(sig: Signature, line: string, args: seq<string>, s: Section, later: seq<Assign>)
    requires IsFlagLine(line) && CarriesAssign(sig, line) && s.relevant
    ensures ScanArgs(sig, [line] + args).events ==
            Dos(LineEffect(sig, s, line) + later)[..1] + ScanArgs(sig, args).events
    ensures Dos(LineEffect(sig, s, line) + later) ==
            Dos(LineEffect(sig, s, line) + later)[..1] + Dos(later)
  {
    FlagLineKind(sig, line);
    hide KindOf, LineAssign, CarriesAssign;
    var a := LineAssign(sig, line).value;
    assert ([a] + later)[1..] == later;
    assert ([line] + args)[0] == line && ([line] + args)[1..] == args;
  }

  lemma FlagLineKind(sig: Signature, line: string)
    requires IsFlagLine(line) && CarriesAssign(sig, line)
    ensures KindOf(sig, line) == Complete(LineAssign(sig, line).value)
  {
    hide SplitArgument;
  }

  /** The flag lines of the listed files, in order. */
  function FileArgs(w: World, files: seq<string>): seq<string> {
    if files == [] then []
    else
      (if files[0] in w.files then FlagLines(FileLines(w, files[0])) else []) +
      FileArgs(w, files[1..])
  }

  predicate SimpleFiles(w: World, sig: Signature, files: seq<string>) {
    forall i | 0 <= i < |files| ::
      files[i] in w.files && SimpleLines(sig, FileLines(w, files[i]))
  }

  function FileLines(w: World, file: string): seq<string>
    requires file in w.files
  {
    Lines(Text.CStr(w.files[file]))
  }

  lemma FileScan(w: World, sig: Signature, file: string, more: seq<string>)
    requires file in w.files && SimpleLines(sig, FileLines(w, file))
    ensures Expand(w, sig, FileRef(file)).Assigns?
    ensures ScanArgs(sig, FlagLines(FileLines(w, file)) + more).events
         == Dos(Expand(w, sig, FileRef(file)).assigns) + ScanArgs(sig, more).events
  {
    hide ReadLines, Lines, SimpleLines, FlagLines, ScanArgs, Dos;
    SimpleLinesScan(ProgramMatcher(w), sig, FileLines(w, file), START, more);
  }

  lemma {:induction false} SimpleFilesScan(w: World, sig: Signature, files: seq<string>, more: seq<string>)
    requires SimpleFiles(w, sig, files)
    ensures var refs := ParserSteps.ListRefs(FLAGFILE, files);
            && AllExpand(w, sig, refs)
            && ScanArgs(sig, FileArgs(w, files) + more).events == Dos(AllAssigns(w, sig, refs)) + ScanArgs(sig, more).events
  {
    hide ReadLines, Lines, SimpleLines, FlagLines, ScanArgs, ProgramMatcher, Dos, Text.CStr, TextAssigns;
    var refs := ParserSteps.ListRefs(FLAGFILE, files);
    if files == [] {
      assert refs == [] && FileArgs(w, files) + more == more;
      DosEmpty();
    } else {
      assert refs[1..] == ParserSteps.ListRefs(FLAGFILE, files[1..]);
      SimpleFilesScan(w, sig, files[1..], more);
      FileScan(w, sig, files[0], FileArgs(w, files[1..]) + more);
      var inner := Expand(w, sig, refs[0]).assigns;
      DosConcat(inner, AllAssigns(w, sig, refs[1..]));
      assert forall i | 0 < i < |refs| :: refs[i] == refs[1..][i - 1];
      assert FileArgs(w, files) + more == FlagLines(FileLines(w, files[0])) + (FileArgs(w, files[1..]) + more);
      hide FileArgs, Expand, FileLines;
    }
  }

  /** --flagfile=f,g,... is equivalent to the flag lines of those files on the command line: same
      flags but for flagfile itself, same errors, same end of the program if any. */
  lemma FlagfileInlines(w: World, depth: nat, text: string, st: PState)
    requires WellFormed(st.flags) && st.stop == Running
    requires Accepts(w, FLAGFILE, st.flags[FLAGFILE], text)
    requires FlagList(text).Some? && SimpleFiles(w, Sig(st.flags), FlagList(text).value)
    ensures SameBut(FLAGFILE, RunAssigns(w, depth + 1, SetFlagsValue, [Assign(FLAGFILE, text)], st),
                              RunArgs(w, depth, FileArgs(w, FlagList(text).value), st))
  {
    hide WellFormed, Sig, RunAssigns, RunArgs, SimpleFiles, FileArgs, AllAssigns, AllExpand, FlagList;
    var files := FlagList(text).value;
    SimpleFilesScan(w, Sig(st.flags), files, []);
    NoMoreArgs(Sig(st.flags), FileArgs(w, files));
    assert RefsOf(FLAGFILE, text).value == ParserSteps.ListRefs(FLAGFILE, files);
    InlineRefs(w, depth, FLAGFILE, text, FileArgs(w, files), st);
  }

  // ----- --fromenv and --tryfromenv -----

  /** A known flag that the recursion guard lets pass: its value is in the environment, or it may be missing
      because the option is --tryfromenv. */
  predicate InEnvironment(w: World, sig: Signature, x: string, name: string) {
    && FindFlag(sig, name).Some? && '=' !in name && GoodPiece(name)
    && if "FLAGS_" + name in w.environ
       then w.environ["FLAGS_" + name] != FROMENV && w.environ["FLAGS_" + name] != TRYFROMENV
       else x == TRYFROMENV
  }

  /** The option for one name; nothing for a name that is not in the environment. */
  function EnvArg(w: World, name: string): seq<string> {
    if "FLAGS_" + name in w.environ then ["--" + (name + "=" + w.environ["FLAGS_" + name])] else []
  }

  predicate AllInEnvironment(w: World, sig: Signature, x: string, names: seq<string>) {
    forall i | 0 <= i < |names| :: InEnvironment(w, sig, x, names[i])
  }

  function EnvArgs(w: World, names: seq<string>): seq<string> {
    if names == [] then [] else EnvArg(w, names[0]) + EnvArgs(w, names[1..])
  }

  /** What the environment value of one name makes the parser do. */
  function EnvAssigns(w: World, sig: Signature, name: string): seq<Assign>
    requires FindFlag(sig, name).Some?
  {
    if "FLAGS_" + name in w.environ then [Assign(FindFlag(sig, name).value, w.environ["FLAGS_" + name])] else []
  }

  lemma EnvExpands(w: World, sig: Signature, x: string, name: string)
    requires (x == FROMENV || x == TRYFROMENV) && InEnvironment(w, sig, x, name)
    ensures match Expand(w, sig, EnvRef(name, x == FROMENV))
            case Assigns(inner) => inner == EnvAssigns(w, sig, name)
            case Nothing => EnvAssigns(w, sig, name) == []
            case Note(_) => false
  {
    hide FindFlag;
  }

  lemma EnvArgScan(w: World, sig: Signature, x: string, name: string, more: seq<string>)
    requires InEnvironment(w, sig, x, name)
    ensures ScanArgs(sig, EnvArg(w, name) + more).events ==
            Dos(EnvAssigns(w, sig, name)) + ScanArgs(sig, more).events
  {
    hide FindFlag;
    if "FLAGS_" + name in w.environ {
      var arg := EnvArg(w, name)[0];
      assert arg[2..] == name + "=" + w.environ["FLAGS_" + name];
      SplitNameValue(sig, name, w.environ["FLAGS_" + name]);
      hide SplitArgument;
      assert KindOf(sig, arg) == Complete(EnvAssigns(w, sig, name)[0]);
      hide KindOf;
      assert ([arg] + more)[0] == arg && ([arg] + more)[1..] == more;
      assert Dos(EnvAssigns(w, sig, name)) == [Do(EnvAssigns(w, sig, name)[0])];
    } else {
      assert EnvArg(w, name) + more == more;
    }
  }

  lemma {:induction false} EnvScan(w: World, sig: Signature, x: string, names: seq<string>, more: seq<string>)
    requires (x == FROMENV || x == TRYFROMENV) && AllInEnvironment(w, sig, x, names)
    ensures var refs := ParserSteps.ListRefs(x, names);
            && AllExpand(w, sig, refs)
            && ScanArgs(sig, EnvArgs(w, names) + more).events == Dos(AllAssigns(w, sig, refs)) + ScanArgs(sig, more).events
  {
    hide ScanArgs, Expand, EnvAssigns, EnvArg, InEnvironment;
    var refs := ParserSteps.ListRefs(x, names);
    if names == [] {
      assert refs == [] && EnvArgs(w, names) + more == more;
    } else {
      assert refs[1..] == ParserSteps.ListRefs(x, names[1..]);
      EnvScan(w, sig, x, names[1..], more);
      assert InEnvironment(w, sig, x, names[0]);
      EnvKnown(w, sig, x, names[0]);
      EnvExpands(w, sig, x, names[0]);
      EnvArgScan(w, sig, x, names[0], EnvArgs(w, names[1..]) + more);
      DosConcat(EnvAssigns(w, sig, names[0]), AllAssigns(w, sig, refs[1..]));
      assert EnvArgs(w, names) + more == EnvArg(w, names[0]) + (EnvArgs(w, names[1..]) + more);
      assert forall i | 0 < i < |refs| :: refs[i] == refs[1..][i - 1];
    }
  }

  lemma EnvKnown(w: World, sig: Signature, x: string, name: string)
    requires InEnvironment(w, sig, x, name)
    ensures FindFlag(sig, name).Some?
  {
  }

  lemma NoMoreArgs(sig: Signature, args: seq<string>)
    ensures args + [] == args && ScanArgs(sig, []).events == []
  {
  }

  /** --fromenv=a,b is equivalent to --a=... --b=... with the values taken from the environment, and so is
      --tryfromenv=a,b, with nothing for a name that is not there. */
  lemma FromenvInlines(w: World, depth: nat, x: string, text: string, st: PState)
    requires WellFormed(st.flags) && st.stop == Running && (x == FROMENV || x == TRYFROMENV)
    requires Accepts(w, x, st.flags[x], text)
    requires FlagList(text).Some? && AllInEnvironment(w, Sig(st.flags), x, FlagList(text).value)
    ensures SameBut(x, RunAssigns(w, depth + 1, SetFlagsValue, [Assign(x, text)], st),
                       RunArgs(w, depth, EnvArgs(w, FlagList(text).value), st))
  {
    hide WellFormed, Sig, RunAssigns, RunArgs, EnvArgs, AllAssigns, AllExpand, FlagList, ScanArgs;
    var names := FlagList(text).value;
    EnvScan(w, Sig(st.flags), x, names, []);
    NoMoreArgs(Sig(st.flags), EnvArgs(w, names));
    assert RefsOf(x, text).value == ParserSteps.ListRefs(x, names);
    InlineRefs(w, depth, x, text, EnvArgs(w, names), st);
  }
}
