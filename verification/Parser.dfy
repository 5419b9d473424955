/** CommandLineFlagParser: the loops and recursive calls that process options, proved against
    module Engine. `depth` is the room left on the call stack. */
module Parser {
  import opened Text
  import Values
  import opened Flags
  import opened Names
  import opened Flagfile
  import opened Engine
  import ParseProofs
  import opened ParserSteps
  import opened Argv
  import opened ArgvSteps
  import opened ErrorReports
  import opened Registry

  class CommandLineFlagParser {
    const world: World
    const registry: FlagRegistry
    var errorFlags: map<string, Option<Error>>
    var undefinedNames: set<string>
    var stop: Stop
    ghost var st: PState     // all of this, and the flags of the registry, as one value

    constructor (world: World, registry: FlagRegistry, ghost table: FlagTable)
      requires registry.Valid() && registry.Shows(table) && WellFormed(table)
      ensures this.world == world && this.registry == registry && Valid()
      ensures st == PState(table, map[], {}, [], Running)
    {
      this.world, this.registry := world, registry;
      errorFlags, undefinedNames, stop := map[], {}, Running;
      st := PState(table, map[], {}, [], Running);
    }

    ghost predicate Valid()
      reads this, registry, registry.Repr
    {
      && registry.Valid() && this !in registry.Repr
      && registry.Shows(st.flags) && WellFormed(st.flags)
      && st.errors == errorFlags && st.undefined == undefinedNames && st.stop == stop
    }

    ghost function Frame(): set<object>
      reads this, registry
    {
      {this} + registry.Repr
    }

    lemma Facts()
      requires Valid()
      ensures registry !in Frame() && st.flags.Keys == registry.flags.Keys
      ensures forall n | n in registry.flags ::
        registry.flags[n].name == n && registry.flags[n].Objects() <= Frame()
    {
    }

    lemma TypeFacts()
      requires Valid()
      ensures forall n | n in registry.flags ::
        n in st.flags && Sig(st.flags)[n] == registry.flags[n].defvalue.valueType
    {
      assert forall n | n in registry.flags :: registry.flags[n].Valid() && st.flags[n] == registry.flags[n].State();
    }

    method RecordUnknown(key: string, e: Error, ghost mode: Mode)
      requires Valid()
      modifies this
      ensures Valid() && unchanged(registry) && st.flags == old(st).flags
      ensures st == Apply(world, mode, Unknown(key, e), old(st))
    {
      hide FlagRegistry.Valid, FlagRegistry.Shows, WellFormed, SetFlag;
      Facts();
      undefinedNames := undefinedNames + {key};
      errorFlags := errorFlags[key := Some(e)];
      st := Apply(world, mode, Unknown(key, e), st);
    }

    method RecordFailure(key: string, e: Error, ghost mode: Mode)
      requires Valid()
      modifies this
      ensures Valid() && unchanged(registry) && st.flags == old(st).flags
      ensures st == Apply(world, mode, Fail(key, e), old(st))
    {
      hide FlagRegistry.Valid, FlagRegistry.Shows, WellFormed, SetFlag;
      Facts();
      errorFlags := errorFlags[key := Some(e)];
      st := Apply(world, mode, Fail(key, e), st);
    }

    /** The program ends here. */
    method Stopped(why: Stop, ghost mode: Mode)
      requires Valid() && why != Running
      modifies this
      ensures stop == why
      ensures Valid() && unchanged(registry) && st.flags == old(st).flags
      ensures st == Apply(world, mode, Halt(why), old(st))
    {
      hide FlagRegistry.Valid, FlagRegistry.Shows, WellFormed, SetFlag;
      Facts();
      stop := why;
      st := Apply(world, mode, Halt(why), st);
    }

    method ProcessSingleOptionLocked(flag: CommandLineFlag, value: Option<string>, mode: Mode, depth: nat)
      requires Valid() && stop == Running
      requires flag.name in registry.flags && registry.flags[flag.name] == flag
      modifies Frame()
      ensures Valid() && unchanged(registry) && Sig(st.flags) == Sig(old(st).flags)
      ensures match value
              case Some(text) => st == RunAssigns(world, depth, mode, [Assign(flag.name, text)], old(st))
              case None => st == FollowOption(world, depth, mode, flag.name, old(st))
      decreases depth, 3
    {
      hide FlagRegistry.Valid, FlagRegistry.Shows, WellFormed,
        RunAssigns, RunList, Apply, SetFlag, Sig;
      Facts();
      if value.Some? {
        ghost var st0 := st;
        SingleOption(world, depth, mode, Assign(flag.name, value.value), st0);
        ParseProofs.SetKeepsTable(world, mode, Set(flag.name, value.value), st0);
        var error := SetOption(flag, value.value, mode);
        if error.Some? {
          return;
        }
      }
      FollowFlag(flag, mode, depth);
    }

    /** The recursive flags are dealt with as soon as they are seen. */
    method FollowFlag(flag: CommandLineFlag, mode: Mode, depth: nat)
      requires Valid() && stop == Running
      requires flag.name in registry.flags && registry.flags[flag.name] == flag
      modifies Frame()
      ensures Valid() && unchanged(registry) && Sig(st.flags) == Sig(old(st).flags)
      ensures st == FollowOption(world, depth, mode, flag.name, old(st))
      decreases depth, 2
    {
      hide FlagRegistry.Valid, FlagRegistry.Shows, WellFormed, RunList, Sig;
      Facts();
      if flag.name == FLAGFILE {
        ProcessFlagfileLocked(FlagText(flag), mode, depth);
      } else if flag.name == FROMENV {
        ProcessFromenvLocked(FlagText(flag), mode, true, depth);
      } else if flag.name == TRYFROMENV {
        ProcessFromenvLocked(FlagText(flag), mode, false, depth);
      }
    }

    /** The set itself, and the error it may leave. */
    method SetOption(flag: CommandLineFlag, value: string, mode: Mode) returns (error: Option<Error>)
      requires Valid() && stop == Running
      requires flag.name in registry.flags && registry.flags[flag.name] == flag
      modifies Frame()
      ensures Valid() && unchanged(registry)
      ensures st == Apply(world, mode, Set(flag.name, value), old(st))
      ensures var r := SetFlag(world.validators, flag.name, old(st).flags[flag.name], value, mode);
              error == r.error && st.flags[flag.name] == r.flag
    {
      hide FlagRegistry.Valid, FlagRegistry.Shows, WellFormed, SetFlag, Sig, Apply;
      Facts();
      ParseProofs.SetKeepsTable(world, mode, Set(flag.name, value), st);
      ApplySet(world, mode, flag.name, value, st);
      error := registry.SetFlagLocked(world.validators, flag, value, mode, st.flags);
      if error.Some? {
        errorFlags := errorFlags[flag.name := error];
      }
      st := Apply(world, mode, Set(flag.name, value), st);
    }

    /** FLAGS_flagfile, FLAGS_fromenv, FLAGS_tryfromenv, FLAGS_undefok: a string flag's variable. */
    function FlagText(flag: CommandLineFlag): (text: string)
      requires Valid() && flag.name in registry.flags && registry.flags[flag.name] == flag
      reads this, registry, registry.Repr, flag.current.buffer
      ensures text == Contents(st.flags[flag.name])
    {
      assert st.flags[flag.name] == flag.State();
      if flag.current.buffer.value.StringValue? then flag.current.buffer.value.s else ""
    }

    method ProcessFlagfileLocked(flagval: string, mode: Mode, depth: nat)
      requires Valid() && stop == Running
      modifies Frame()
      ensures Valid() && unchanged(registry) && Sig(st.flags) == Sig(old(st).flags)
      ensures st == RunList(world, depth, mode, FLAGFILE, flagval, old(st))
      decreases depth, 1
    {
      hide FlagRegistry.Valid, FlagRegistry.Shows, WellFormed,
        RunRefs, RunList, RunText, Apply, Follow, Sig;
      Facts();
      ghost var st0 := st;
      ListStart(world, depth, mode, FLAGFILE, flagval, st0);
      if flagval == "" {
        return;
      }
      var list := ParseFlagList(flagval);
      if list.None? {
        Stopped(Exited, mode);
        return;
      }
      ghost var refs := ListRefs(FLAGFILE, list.value);
      assert refs[0..] == refs;
      for i := 0 to |list.value|
        invariant Valid() && stop == Running && Sig(st.flags) == Sig(st0.flags)
        invariant unchanged(registry)
        invariant RunRefs(world, depth, mode, refs[i..], st) == RunRefs(world, depth, mode, refs, st0)
      {
        var file := list.value[i];
        RefStep(world, depth, mode, FLAGFILE, list.value, i, st);
        FollowFile(world, depth, mode, file, st);
        assert refs[i] == FileRef(file);
        StoppedRefs(world, depth, mode, refs[i + 1..]);
        if file !in world.files {
          Stopped(Exited, mode);
          return;
        }
        if depth == 0 {
          Stopped(Overflowed, mode);
          return;
        }
        ProcessOptionsFromStringLocked(world.files[file], mode, depth - 1);
        if stop != Running {
          return;
        }
      }
      assert refs[|refs|..] == [];
      StoppedRefs(world, depth, mode, []);
    }

    method ProcessFromenvLocked(flagval: string, mode: Mode, errorsAreFatal: bool, depth: nat)
      requires Valid() && stop == Running
      modifies Frame()
      ensures Valid() && unchanged(registry) && Sig(st.flags) == Sig(old(st).flags)
      ensures st == RunList(world, depth, mode, if errorsAreFatal then FROMENV else TRYFROMENV,
                            flagval, old(st))
      decreases depth, 1
    {
      hide FlagRegistry.Valid, FlagRegistry.Shows, WellFormed,
        RunRefs, RunAssigns, RunList, RunText, Apply, Follow, FindFlag, Sig;
      Facts();
      ghost var st0, name := st, if errorsAreFatal then FROMENV else TRYFROMENV;
      ListStart(world, depth, mode, name, flagval, st0);
      if flagval == "" {
        return;
      }
      var list := ParseFlagList(flagval);
      if list.None? {
        Stopped(Exited, mode);
        return;
      }
      ghost var refs := ListRefs(name, list.value);
      assert refs[0..] == refs;
      for i := 0 to |list.value|
        invariant Valid() && stop == Running && Sig(st.flags) == Sig(st0.flags)
        invariant unchanged(registry)
        invariant RunRefs(world, depth, mode, refs[i..], st) == RunRefs(world, depth, mode, refs, st0)
      {
        RefStep(world, depth, mode, name, list.value, i, st);
        StoppedRefs(world, depth, mode, refs[i + 1..]);
        assert refs[i] == EnvRef(list.value[i], errorsAreFatal);
        ProcessEnvName(list.value[i], mode, errorsAreFatal, depth);
        if stop != Running {
          return;
        }
      }
      assert refs[|refs|..] == [];
      StoppedRefs(world, depth, mode, []);
    }

    /** The body of the loop over the names in --fromenv. */
    method ProcessEnvName(flagname: string, mode: Mode, errorsAreFatal: bool, depth: nat)
      requires Valid() && stop == Running
      modifies Frame()
      ensures Valid() && unchanged(registry) && Sig(st.flags) == Sig(old(st).flags)
      ensures st == Follow(world, depth, mode, EnvRef(flagname, errorsAreFatal), old(st))
      decreases depth, 0
    {
      hide FlagRegistry.Valid, FlagRegistry.Shows, WellFormed,
        RunRefs, RunAssigns, RunList, RunText, Apply, Follow, FindFlag, Sig;
      Facts();
      FollowEnv(world, depth, mode, flagname, errorsAreFatal, st);
      var flag := registry.FindFlagLocked(flagname, st.flags);
      if flag == null {
        RecordUnknown(flagname, UnknownInEnvList, mode);
        return;
      }
      var envname := "FLAGS_" + flagname;
      if envname !in world.environ {
        if errorsAreFatal {
          RecordFailure(flagname, NotInEnvironment(envname), mode);
        }
        return;
      }
      var envval := world.environ[envname];
      if envval == FROMENV || envval == TRYFROMENV {
        RecordFailure(flagname, EnvRecursion(envval), mode);
        return;
      }
      if depth == 0 {
        Stopped(Overflowed, mode);
        return;
      }
      ProcessSingleOptionLocked(flag, Some(envval), mode, depth - 1);
    }

    method ProcessOptionsFromStringLocked(content: string, mode: Mode, depth: nat)
      requires Valid() && stop == Running
      modifies Frame()
      ensures Valid() && unchanged(registry) && Sig(st.flags) == Sig(old(st).flags)
      ensures st == RunText(world, depth, mode, content, old(st))
      decreases depth, 5
    {
      hide FlagRegistry.Valid, FlagRegistry.Shows, WellFormed,
        RunAssigns, RunText, ReadLines, Lines, NextLine, NextSection, LineEffect, Remaining, Sig;
      Facts();
      ghost var st0, sig, m := st, Sig(st.flags), ProgramMatcher(world);
      TextStart(world, depth, mode, content, st);
      var cursor := Some(CStr(content));
      var section := START;
      while cursor.Some?
        invariant Valid() && stop == Running && Sig(st.flags) == sig
        invariant unchanged(registry)
        invariant RunAssigns(world, depth, mode, Remaining(m, sig, cursor, section), st)
               == RunText(world, depth, mode, content, st0)
        decreases if cursor.None? then 0 else |cursor.value| + 1
      {
        var cut := NextLine(cursor.value);
        TextStep(world, depth, mode, m, sig, cursor.value, section, st);
        section := ProcessLine(cut.line, section, mode, depth);
        cursor := cut.rest;
        StoppedAssigns(world, depth, mode, Remaining(m, sig, cursor, section));
        if stop != Running {
          return;
        }
      }
      TextEnd(world, depth, mode, m, sig, section);
    }

    /** The body of the reading loop: what one line does, and the section that follows it. */
    method ProcessLine(line: string, section: Section, mode: Mode, depth: nat) returns (next: Section)
      requires Valid() && stop == Running
      modifies Frame()
      ensures Valid() && unchanged(registry) && Sig(st.flags) == Sig(old(st).flags)
      ensures next == NextSection(ProgramMatcher(world), section, line)
      ensures st == RunAssigns(world, depth, mode, LineEffect(Sig(old(st).flags), section, line), old(st))
      decreases depth, 4
    {
      hide FlagRegistry.Valid, FlagRegistry.Shows, WellFormed,
        RunAssigns, SplitArgument, LineMatches, Sig;
      Facts();
      StoppedAssigns(world, depth, mode, []);
      next := section;
      if line == "" || line[0] == '#' {
        // comment or empty line
      } else if line[0] == '-' {
        next := next.(inFilenames := false);
        if !next.relevant {
          return;
        }
        var arg := SplitLine(line);
        match arg {
          case Resolved(_, name, Some(value)) =>
            ProcessSingleOptionLocked(registry.flags[name], Some(value), mode, depth);
          case _ =>
        }
      } else {
        if !next.inFilenames {
          next := Section(false, true);
        }
        if !next.relevant {
          var matched := AnyWordMatches(line);
          next := next.(relevant := matched);
        }
      }
    }

    /** SplitArgumentLocked on a flag line without its dashes. */
    method SplitLine(line: string) returns (arg: Argument)
      requires Valid() && line != "" && line[0] == '-'
      ensures arg == SplitArgument(Sig(st.flags), StripDashes(line))
      ensures arg.Resolved? ==> arg.flag in registry.flags
    {
      var nameAndVal := line[1..];
      if nameAndVal != "" && nameAndVal[0] == '-' {
        nameAndVal := nameAndVal[1..];
      }
      assert nameAndVal == StripDashes(line);
      arg := SplitArgumentLocked(nameAndVal);
    }

    /** SplitArgumentLocked, on the registry itself. */
    method SplitArgumentLocked(arg: string) returns (r: Argument)
      requires Valid()
      ensures r == SplitArgument(Sig(st.flags), arg)
      ensures r.Resolved? ==> r.flag in registry.flags
    {
      hide FlagRegistry.Valid, FlagRegistry.Shows, WellFormed, Sig, FindFlag;
      Facts();
      TypeFacts();
      var eq := IndexOf(arg, '=');
      var key := arg[..eq];
      var value := if eq == |arg| then None else Some(arg[eq + 1..]);
      var flag := registry.FindFlagLocked(key, st.flags);
      if flag == null {
        if !HasNoPrefix(key) {
          return Unresolved(key, UnknownFlag);
        }
        flag := registry.FindFlagLocked(key[2..], st.flags);
        if flag == null {
          return Unresolved(key, UnknownFlag);
        }
        if flag.defvalue.valueType != Values.FvBool {
          return Unresolved(key, BoolForNonBool(flag.defvalue.valueType));
        }
        key, value := key[2..], Some("0");
      }
      if value.None? && flag.defvalue.valueType == Values.FvBool {
        value := Some("1");
      }
      return Resolved(key, flag.name, value);
    }

    /** The loop over the blank-separated words of a filename line; stops at the first match. */
    method AnyWordMatches(line: string) returns (matched: bool)
      ensures matched == LineMatches(ProgramMatcher(world), line)
    {
      hide MatchesProgram, Split, IndexOf;
      ghost var words := Split(line, ' ');
      ghost var k := 0;
      var word := Some(line);
      while word.Some?
        invariant 0 <= k <= |words|
        invariant words[k..] == if word.None? then [] else Split(word.value, ' ')
        invariant forall i | 0 <= i < k :: !MatchesProgram(world, words[i])
        decreases if word.None? then 0 else |word.value| + 1
      {
        SplitStep(word.value, ' ');
        var space := IndexOf(word.value, ' ');
        var glob := word.value[..space];
        assert words[k] == words[k..][0] == glob;
        assert words[k + 1..] == words[k..][1..];
        if MatchesProgram(world, glob) {
          return true;
        }
        word := if space == |word.value| then None else Some(word.value[space + 1..]);
        k := k + 1;
      }
      return false;
    }

    // ----- Stage 1: the command line -----

    /** An argument without its dashes, resolved. */
    method Classify(arg: string) returns (kind: Kind)
      requires Valid()
      ensures kind == KindOf(Sig(st.flags), arg)
      ensures kind.Complete? ==> kind.assign.name in registry.flags
      ensures kind.WantsValue? ==> kind.flag in registry.flags
    {
      hide FlagRegistry.Valid, FlagRegistry.Shows, WellFormed, Sig, SplitArgument;
      if |arg| < 2 || arg[0] != '-' {
        return ProgramArgument;
      }
      var name := if arg[1] == '-' then arg[2..] else arg[1..];
      if name == "" {
        return Terminator;
      }
      var split := SplitArgumentLocked(name);
      match split {
        case Unresolved(key, e) => return NoFlag(key, e);
        case Resolved(_, flag, Some(value)) => return Complete(Assign(flag, value));
        case Resolved(key, flag, None) => return WantsValue(key, flag);
      }
    }

    /** What one argument does; `next` is the unscanned argument after it. */
    method ProcessArgument(arg: string, next: Option<string>, depth: nat) returns (kind: Kind)
      requires Valid() && stop == Running
      modifies Frame()
      ensures Valid() && unchanged(registry) && Sig(st.flags) == Sig(old(st).flags)
      ensures kind == KindOf(Sig(old(st).flags), arg)
      ensures match ArgEvent(kind, arg, next)
              case None => st == old(st)
              case Some(e) => st == RunEvent(world, depth, e, old(st))
    {
      hide FlagRegistry.Valid, FlagRegistry.Shows, WellFormed, Sig, KindOf, RunAssigns, Apply, SetFlag, RunList;
      Facts();
      kind := Classify(arg);
      match kind {
        case ProgramArgument =>
        case Terminator =>
        case NoFlag(key, e) => RecordUnknown(key, e, SetFlagsValue);
        case Complete(a) => ProcessSingleOptionLocked(registry.flags[a.name], Some(a.text), SetFlagsValue, depth);
        case WantsValue(key, flag) =>
          if next.None? {
            RecordFailure(key, MissingArgument(arg), SetFlagsValue);
          } else {
            ProcessSingleOptionLocked(registry.flags[flag], next, SetFlagsValue, depth);
          }
      }
    }

    /** The command line is scanned and permuted in place. With `removeFlags`, argv begins at `start`
        from then on. Nothing is promised about argv when the program is ended meanwhile. */
    method ParseNewCommandLineFlags(argv: array<string>, removeFlags: bool, depth: nat)
      returns (firstNonopt: nat, start: nat)
      requires Valid() && stop == Running && argv.Length > 0 && argv !in registry.Repr
      modifies Frame(), argv
      ensures Valid() && unchanged(registry) && Sig(st.flags) == Sig(old(st).flags)
      ensures st == RunArgs(world, depth, old(argv[1..]), old(st))
      ensures stop == Running ==>
        var s := ScanArgs(Sig(old(st).flags), old(argv[1..]));
        if removeFlags then
          start == |s.scanned| < argv.Length && firstNonopt == 1 &&
          argv[start..] == [old(argv[0])] + s.rest + s.moved
        else
          start == 0 && firstNonopt == 1 + |s.scanned| &&
          argv[..] == [old(argv[0])] + s.scanned + s.rest + s.moved
    {
      hide FlagRegistry.Valid, FlagRegistry.Shows, WellFormed, Sig, KindOf, ScanArgs, RunEvents, RunEvent,
        ArgEvent, Partial, Ahead, Arranged, Layout, LooksLikeFlag, WithMoved, RunArgs;
      ghost var program, args, sig, end := argv[0], argv[1..], Sig(st.flags),
        RunArgs(world, depth, argv[1..], st);
      ghost var s := ScanArgs(sig, args);
      firstNonopt, start := argv.Length, 0;
      ghost var done, todo, moved: seq<string> := [], args, [];
      assert Partial(sig, s, done, todo, moved) by { PartialStart(sig, args); }
      assert Ahead(world, depth, sig, todo, st, end) by { AheadStart(world, depth, args, st); }
      assert Arranged(argv[..], program, done, todo, moved) by { ArrangedStart(argv[..]); }
      var i := 1;
      while i < firstNonopt
        invariant Valid() && unchanged(registry) && stop == Running && Sig(st.flags) == sig
        invariant Arranged(argv[..], program, done, todo, moved)
        invariant i == 1 + |done| && firstNonopt == i + |todo| <= argv.Length
        invariant Partial(sig, s, done, todo, moved) && Ahead(world, depth, sig, todo, st, end)
        decreases firstNonopt - i
      {
        ArrangedTake(argv[..], program, done, todo, moved, 0);
        assert argv[i] == argv[..][i] == todo[0];
        assert |todo| > 1 ==> argv[i + 1] == argv[..][i + 1] == todo[1];
        var arg := argv[i];
        var next := if i + 1 < firstNonopt then Some(argv[i + 1]) else None;
        assert next == First(todo[1..]);
        ghost var st1 := st;
        var kind := ProcessArgument(arg, next, depth);
        if kind.ProgramArgument? {
          NoEvent(kind, arg, next);
          PartialMove(sig, s, done, todo, moved);
          AheadSame(world, depth, sig, todo, todo[1..], st, end);
          ArrangedMove(argv[..], program, done, todo, moved);
          MoveToEnd(argv, i);
          moved, todo := moved + [arg], todo[1..];
          firstNonopt := firstNonopt - 1;
        } else if kind.Terminator? {
          NoEvent(kind, arg, next);
          PartialEnd(sig, s, done, todo, moved);
          AheadDone(world, depth, sig, todo, st, end);
          ArrangedTake(argv[..], program, done, todo, moved, 1);
          assert todo[..1] == [arg];
          LayoutOf(argv[..], program, s, done + [arg], todo[1..], moved);
          firstNonopt := i + 1;
          start, firstNonopt := Finish(argv, removeFlags, firstNonopt, program, s);
          return;
        } else {
          PartialFlag(sig, s, done, todo, moved);
          ghost var n := Used(kind, |todo|);
          ArrangedTake(argv[..], program, done, todo, moved, n);
          ghost var e := EventOf(kind, arg, next);
          AheadFlag(world, depth, sig, todo, st1, end, e, todo[n..]);
          if stop != Running {
            return;
          }
          done, todo := done + todo[..n], todo[n..];
          i := if kind.WantsValue? && next.Some? then i + 2 else i + 1;
        }
      }
      PartialNone(sig, s, done, moved);
      AheadDone(world, depth, sig, todo, st, end);
      LayoutOf(argv[..], program, s, done, [], moved);
      start, firstNonopt := Finish(argv, removeFlags, firstNonopt, program, s);
    }

    // ----- Stage 3: validation -----

    /** ValidateFlags; the order of the flags makes no difference. */
    method ValidateFlags(all: bool)
      requires Valid()
      modifies this
      ensures Valid()
      ensures st == old(st).(errors := Validated(world, all, old(st).flags, old(st).errors))
    {
      hide FlagRegistry.Valid, FlagRegistry.Shows, WellFormed, Validated;
      errorFlags := ValidationErrors(all);
      st := st.(errors := errorFlags);
    }

    method ValidationErrors(all: bool) returns (errors: Errors)
      requires Valid()
      ensures errors == Validated(world, all, st.flags, errorFlags)
    {
      hide FlagRegistry.Valid, FlagRegistry.Shows, WellFormed, Sig, FailsValidation, Validated;
      TableFacts();
      ValidatedEnds(world, all, st.flags, errorFlags);
      errors := errorFlags;
      var todo := registry.flags.Keys;
      while todo != {}
        invariant todo <= registry.flags.Keys
        invariant errors == Validated(world, all, st.flags - todo, errorFlags)
        decreases |todo|
      {
        var n :| n in todo;
        ValidatedStep(world, all, st.flags, todo, errorFlags, n);
        var fails := FlagFails(n, all);
        if fails && (n !in errors || errors[n].None?) {
          errors := errors[n := Some(MustBeSet(!registry.flags[n].modified))];
        }
        todo := todo - {n};
      }
    }

    /** The test of the validation loop, for one flag. */
    method FlagFails(n: string, all: bool) returns (fails: bool)
      requires Valid() && n in registry.flags
      ensures n in st.flags && fails == FailsValidation(world, all, st.flags, n)
      ensures st.flags[n].modified == registry.flags[n].modified
    {
      TableFacts();
      hide FlagRegistry.Valid, FlagRegistry.Shows, WellFormed;
      var flag := registry.flags[n];
      var ok := flag.validator.None? ||
        world.validators(flag.validator.value, n, flag.current.buffer.value);
      fails := (all || !flag.modified) && !ok;
    }

    lemma TableFacts()
      requires Valid()
      ensures st.flags.Keys == registry.flags.Keys && registry !in Frame()
      ensures forall n | n in registry.flags :: n in st.flags && st.flags[n] == registry.flags[n].State()
    {
    }

    // ----- Stage 4: error reports -----

    /** ReportErrors; `reparse` is allow_command_line_reparsing. A malformed --undefok ends the
        program. */
    method ReportErrors(reparse: bool) returns (found: bool)
      requires Valid() && stop == Running
      modifies this
      ensures Valid() && st.flags == old(st).flags && st.undefined == old(st).undefined
      ensures var list := FlagList(Contents(old(st).flags["undefok"]));
              if list.None? then st == Apply(world, SetFlagsValue, Halt(Exited), old(st)) && stop == Exited
              else
                && st == old(st).(errors := ClearAll(old(st).errors, old(st).undefined, list.value, reparse))
                && found == AnyError(st.errors)
    {
      hide FlagRegistry.Valid, FlagRegistry.Shows, WellFormed, Sig, ClearAll, ClearedBut, FlagList;
      Facts();
      UndefokFacts();
      found := false;
      var undefok := FlagText(registry.flags[UNDEFOK]);
      var list := ParseFlagList(undefok);
      if list.None? {
        Stopped(Exited, SetFlagsValue);
        return;
      }
      ClearUndefok(list.value);
      if reparse {
        ClearUndefined(list.value, old(st).errors);
      }
      found := AnyRecorded();
    }

    /** allow_command_line_reparsing clears the errors about all undefined names. */
    method ClearUndefined(ghost list: seq<string>, ghost errors0: Errors)
      requires Valid() && st.errors == ClearAll(errors0, st.undefined, list, false)
      modifies this
      ensures Valid()
      ensures st == old(st).(errors := ClearAll(errors0, old(st).undefined, list, true))
    {
      hide FlagRegistry.Valid, FlagRegistry.Shows, WellFormed, ClearAll, ClearedBut;
      ClearedForReparse(errors0, undefinedNames, list);
      ClearedForReparse(errorFlags, undefinedNames, list);
      var errors := errorFlags;
      var todo := undefinedNames;
      while todo != {}
        invariant todo <= undefinedNames
        invariant errors == ClearedBut(errorFlags, undefinedNames, todo)
        modifies {}
        decreases |todo|
      {
        var k :| k in todo;
        ClearedButStep(errorFlags, undefinedNames, todo, k);
        errors := errors[k := None];
        todo := todo - {k};
      }
      errorFlags := errors;
      st := st.(errors := errors);
    }

    /** The last loop of ReportErrors. */
    method AnyRecorded() returns (found: bool)
      ensures found == AnyError(errorFlags)
    {
      found := false;
      var todo := errorFlags.Keys;
      while todo != {}
        invariant todo <= errorFlags.Keys
        invariant found <==> exists k | k in errorFlags && k !in todo :: errorFlags[k].Some?
        decreases |todo|
      {
        var k :| k in todo;
        if errorFlags[k].Some? {
          found := true;
        }
        todo := todo - {k};
      }
    }

    lemma UndefokFacts()
      requires Valid()
      ensures UNDEFOK in registry.flags && UNDEFOK in st.flags
    {
    }

    lemma PresetFacts()
      requires Valid()
      ensures FLAGFILE in registry.flags && FROMENV in registry.flags && TRYFROMENV in registry.flags
    {
    }

    /** The first half of ReportErrors: each --undefok entry clears at most one error. */
    method ClearUndefok(list: seq<string>)
      requires Valid()
      modifies this
      ensures Valid()
      ensures st == old(st).(errors := ClearAll(old(st).errors, old(st).undefined, list, false))
    {
      hide FlagRegistry.Valid, FlagRegistry.Shows, WellFormed, ClearAll;
      ClearNone(errorFlags, undefinedNames);
      assert list[..0] == [];
      var errors := errorFlags;
      for i := 0 to |list|
        invariant errors == ClearAll(errorFlags, undefinedNames, list[..i], false)
        modifies {}
      {
        ClearStep(errorFlags, undefinedNames, list, i);
        var noVersion := "no" + list[i];
        if list[i] in undefinedNames {
          errors := errors[list[i] := None];
        } else if noVersion in undefinedNames {
          errors := errors[noVersion := None];
        }
      }
      assert list[..|list|] == list;
      errorFlags := errors;
      st := st.(errors := errors);
    }
  }
}
