/** The meaning of a parse, on values: the state a CommandLineFlagParser works on, and what
    applying assignments does to it, --flagfile, --fromenv and --tryfromenv included.

    `depth` is the number of nested flagfiles and environment values the call stack has room for.
    It is part of the machine, not a bound on the statements: the theorems hold for every depth, and
    module Termination shows when some depth is always enough. */
module Engine {
  import opened Text
  import Values
  import opened Flags
  import Names
  import Flagfile

  /** Everything outside the flag registry that a parse depends on. */
  datatype World = World(
    files: map<string, string>,            // readable files
    environ: map<string, string>,          // environment variables
    validators: Validators,
    fnmatch: (string, string) -> bool,     // glob pattern, path
    argv0: string)

  /** ProgramInvocationShortName: what follows the last slash of argv[0]. */
  function ShortName(path: string): (name: string)
    ensures '/' !in name && |name| <= |path| && name == path[|path| - |name|..]
    ensures name == path || path[|path| - |name| - 1] == '/'
    decreases |path|
  {
    var i := IndexOf(path, '/');
    if i == |path| then path else ShortName(path[i + 1..])
  }

  lemma ShortNameOf(dir: string, base: string)
    requires '/' !in base
    ensures ShortName(dir + "/" + base) == base && ShortName(base) == base
  {
    var path := dir + "/" + base;
    var name := ShortName(path);
    assert path[|dir|] == '/' && path[|dir| + 1..] == base;
    assert forall i | 0 <= i < |name| :: path[|path| - |name| + i] == name[i];
    assert forall i | 0 <= i < |base| :: path[|dir| + 1 + i] == base[i];
    assert |name| <= |base| <= |name|;
  }

  /** The glob patterns that select a program: its argv[0] itself, what follows the last slash of it, and
      whatever matches one of the two. */
  lemma ProgramNames(w: World, dir: string, base: string, glob: string)
    requires '/' !in base
    ensures w.argv0 == dir + "/" + base ==>
      (MatchesProgram(w, glob) <==>
         glob == dir + "/" + base || glob == base || w.fnmatch(glob, dir + "/" + base) || w.fnmatch(glob, base))
    ensures w.argv0 == base ==> (MatchesProgram(w, glob) <==> glob == base || w.fnmatch(glob, base))
  {
    ShortNameOf(dir, base);
  }

  predicate MatchesProgram(w: World, glob: string) {
    || glob == w.argv0 || glob == ShortName(w.argv0)
    || w.fnmatch(glob, w.argv0) || w.fnmatch(glob, ShortName(w.argv0))
  }

  function ProgramMatcher(w: World): Flagfile.Matcher {
    glob => MatchesProgram(w, glob)
  }

  /** Exited: the program was ended by an error report. Overflowed: the call stack is exhausted. */
  datatype Stop = Running | Exited | Overflowed

  type FlagTable = map<string, FlagState>

  /** Everything a parse ever does to its state. */
  datatype Prim =
    | Set(name: string, text: string)            // SetFlagLocked, and the error if it refuses
    | Unknown(key: string, error: Error)         // record a name that is not registered
    | Fail(key: string, error: Error)            // record an error about a registered flag
    | Halt(stop: Stop)

  /** errors[k] == None is an error message that was cleared; `trace` is a history of what was done. */
  datatype PState = PState(
    flags: FlagTable,
    errors: map<string, Option<Error>>,
    undefined: set<string>,
    trace: seq<Prim>,
    stop: Stop)

  function Sig(flags: FlagTable): Names.Signature {
    map name | name in flags :: Values.TypeOf(flags[name].defvalue)
  }

  const FLAGFILE := "flagfile"
  const FROMENV := "fromenv"
  const TRYFROMENV := "tryfromenv"
  const UNDEFOK := "undefok"

  predicate IsRecursive(name: string) {
    name == FLAGFILE || name == FROMENV || name == TRYFROMENV
  }

  /** What gflags.cc itself guarantees: values have their flag's type, the recursive flags and
      undefok are string flags. */
  predicate WellFormed(flags: FlagTable) {
    && (forall name {:trigger flags[name].WellTyped()} | name in flags :: flags[name].WellTyped())
    && IsStringFlag(flags, FLAGFILE) && IsStringFlag(flags, FROMENV)
    && IsStringFlag(flags, TRYFROMENV) && IsStringFlag(flags, UNDEFOK)
  }

  predicate IsStringFlag(flags: FlagTable, name: string) {
    name in flags && flags[name].defvalue.StringValue?
  }

  /** The text of a string flag's current value. */
  function Contents(f: FlagState): string {
    if f.current.StringValue? then f.current.s else ""
  }

  // ----- Primitive effects -----

  predicate IsNameError(e: Error) {
    e.UnknownFlag? || e.BoolForNonBool? || e.UnknownInEnvList?
  }

  /** The circumstances in which a parse uses a primitive. */
  predicate Legal(p: Prim, st: PState) {
    && st.stop == Running
    && match p
       case Set(name, _) => name in st.flags
       case Unknown(key, e) => Names.FindFlag(Sig(st.flags), key).None? && IsNameError(e)
       case Fail(key, e) => Names.FindFlag(Sig(st.flags), key).Some? && !IsNameError(e)
       case Halt(stop) => stop != Running
  }

  function Apply(w: World, mode: Mode, p: Prim, st: PState): PState {
    var done := st.trace + [p];
    match p
    case Set(name, text) =>
      if name !in st.flags then st.(trace := done)
      else
        var r := SetFlag(w.validators, name, st.flags[name], text, mode);
        st.(flags := st.flags[name := r.flag],
            errors := if r.error.Some? then st.errors[name := r.error] else st.errors,
            trace := done)
    case Unknown(key, e) =>
      st.(errors := st.errors[key := Some(e)], undefined := st.undefined + {key}, trace := done)
    case Fail(key, e) => st.(errors := st.errors[key := Some(e)], trace := done)
    case Halt(stop) => st.(stop := stop, trace := done)
  }

  // ----- References to files and environment values -----

  datatype Ref = FileRef(file: string) | EnvRef(flagname: string, fatal: bool)

  /** The references that a text holds when it is the value of flag `name`; None when the list is
      malformed and ends the program. */
  function RefsOf(name: string, text: string): Option<seq<Ref>> {
    if !IsRecursive(name) then Some([])
    else
      match Names.FlagList(text)
      case None => None
      case Some(items) =>
        Some(seq(|items|, i requires 0 <= i < |items| =>
          if name == FLAGFILE then FileRef(items[i]) else EnvRef(items[i], name == FROMENV)))
  }

  /** What following a reference comes to: assignments to carry out, or one primitive, or nothing. */
  datatype Expansion = Assigns(assigns: seq<Flagfile.Assign>) | Note(prim: Prim) | Nothing

  function Expand(w: World, sig: Names.Signature, ref: Ref): Expansion {
    match ref
    case FileRef(file) =>
      if file !in w.files then Note(Halt(Exited))
      else Assigns(Flagfile.TextAssigns(ProgramMatcher(w), sig, w.files[file]))
    case EnvRef(flagname, fatal) =>
      match Names.FindFlag(sig, flagname)
      case None => Note(Unknown(flagname, UnknownInEnvList))
      case Some(flag) =>
        var envname := "FLAGS_" + flagname;
        if envname !in w.environ then
          if fatal then Note(Fail(flagname, NotInEnvironment(envname))) else Nothing
        else if w.environ[envname] == FROMENV || w.environ[envname] == TRYFROMENV then
          Note(Fail(flagname, EnvRecursion(w.environ[envname])))
        else Assigns([Flagfile.Assign(flag, w.environ[envname])])
  }

  /** The references an assignment leaves to be followed after its set; None when the flag is
      recursive, the set succeeded and the flag's value is no list. */
  function Pending(w: World, mode: Mode, a: Flagfile.Assign, st: PState): Option<seq<Ref>>
    requires a.name in st.flags
  {
    var r := SetFlag(w.validators, a.name, st.flags[a.name], a.text, mode);
    if r.error.Some? then Some([]) else RefsOf(a.name, Contents(r.flag))
  }

  /** The first half of ProcessSingleOptionLocked: the set, and the end of the program when a list
      is malformed. */
  function SetStep(w: World, mode: Mode, a: Flagfile.Assign, st: PState): PState
    requires a.name in st.flags
  {
    var st1 := Apply(w, mode, Set(a.name, a.text), st);
    if Pending(w, mode, a, st).None? then Apply(w, mode, Halt(Exited), st1) else st1
  }

  function StepRefs(w: World, mode: Mode, a: Flagfile.Assign, st: PState): seq<Ref>
    requires a.name in st.flags
  {
    match Pending(w, mode, a, st) case None => [] case Some(refs) => refs
  }

  /** ProcessSingleOptionLocked on each assignment in turn. An assignment to an unregistered name
      does nothing. */
  function RunAssigns(w: World, depth: nat, mode: Mode, assigns: seq<Flagfile.Assign>, st: PState): PState
    decreases depth, 1, |assigns|
  {
    if assigns == [] || st.stop != Running then st
    else if assigns[0].name !in st.flags then RunAssigns(w, depth, mode, assigns[1..], st)
    else
      var st1 := SetStep(w, mode, assigns[0], st);
      var st2 := RunRefs(w, depth, mode, StepRefs(w, mode, assigns[0], st), st1);
      RunAssigns(w, depth, mode, assigns[1..], st2)
  }

  /** ProcessFlagfileLocked and ProcessFromenvLocked on each list entry in turn. */
  function RunRefs(w: World, depth: nat, mode: Mode, refs: seq<Ref>, st: PState): PState
    decreases depth, 0, |refs|
  {
    if refs == [] || st.stop != Running then st
    else RunRefs(w, depth, mode, refs[1..], Follow(w, depth, mode, refs[0], st))
  }

  /** One list entry: the contents of a file, or one environment value. */
  function Follow(w: World, depth: nat, mode: Mode, ref: Ref, st: PState): PState
    decreases depth, 0, 0
  {
    match Expand(w, Sig(st.flags), ref)
    case Nothing => st
    case Note(p) => Apply(w, mode, p, st)
    case Assigns(inner) =>
      if depth == 0 then Apply(w, mode, Halt(Overflowed), st)
      else RunAssigns(w, depth - 1, mode, inner, st)
  }

  /** ProcessFlagfileLocked and ProcessFromenvLocked: flag `name` is recursive and holds `text`. */
  function RunList(w: World, depth: nat, mode: Mode, name: string, text: string, st: PState): PState {
    match RefsOf(name, text)
    case None => Apply(w, mode, Halt(Exited), st)
    case Some(refs) => RunRefs(w, depth, mode, refs, st)
  }

  /** ProcessSingleOptionLocked without a value: the flag is not set, only followed if it is recursive. */
  function FollowOption(w: World, depth: nat, mode: Mode, name: string, st: PState): PState
    requires name in st.flags
  {
    if IsRecursive(name) then RunList(w, depth, mode, name, Contents(st.flags[name]), st) else st
  }

  /** ProcessOptionsFromStringLocked. */
  function RunText(w: World, depth: nat, mode: Mode, text: string, st: PState): PState {
    RunAssigns(w, depth, mode, Flagfile.TextAssigns(ProgramMatcher(w), Sig(st.flags), text), st)
  }

  // ----- Composition -----

  lemma {:induction false} RunAssignsConcat(
      w: World, depth: nat, mode: Mode, a: seq<Flagfile.Assign>, b: seq<Flagfile.Assign>, st: PState)
    ensures RunAssigns(w, depth, mode, a + b, st)
         == RunAssigns(w, depth, mode, b, RunAssigns(w, depth, mode, a, st))
    decreases |a|
  {
    if a == [] {
      assert a + b == b;
    } else if st.stop == Running {
      assert (a + b)[1..] == a[1..] + b && (a + b)[0] == a[0];
      if a[0].name !in st.flags {
        RunAssignsConcat(w, depth, mode, a[1..], b, st);
      } else {
        var st1 := SetStep(w, mode, a[0], st);
        RunAssignsConcat(w, depth, mode, a[1..], b, RunRefs(w, depth, mode, StepRefs(w, mode, a[0], st), st1));
      }
    }
  }

  // ----- Invariants -----

  /** `inv` survives every primitive a parse may use. */
  ghost predicate Stable(w: World, mode: Mode, inv: PState -> bool) {
    forall p: Prim, st: PState | inv(st) && Legal(p, st) :: inv(Apply(w, mode, p, st))
  }

  /** A parse is nothing but a run of legal primitives: whatever they keep, it keeps. */
  lemma {:induction false} RunAssignsKeeps(
      w: World, depth: nat, mode: Mode, assigns: seq<Flagfile.Assign>, st: PState, inv: PState -> bool)
    requires Stable(w, mode, inv) && inv(st)
    ensures inv(RunAssigns(w, depth, mode, assigns, st))
    decreases depth, 1, |assigns|
  {
    if assigns != [] && st.stop == Running {
      var a := assigns[0];
      if a.name !in st.flags {
        RunAssignsKeeps(w, depth, mode, assigns[1..], st, inv);
      } else {
        assert Legal(Set(a.name, a.text), st);
        var st0 := Apply(w, mode, Set(a.name, a.text), st);
        assert Legal(Halt(Exited), st0);
        var st1 := SetStep(w, mode, a, st);
        RunRefsKeeps(w, depth, mode, StepRefs(w, mode, a, st), st1, inv);
        RunAssignsKeeps(w, depth, mode, assigns[1..],
                        RunRefs(w, depth, mode, StepRefs(w, mode, a, st), st1), inv);
      }
    }
  }

  lemma {:induction false} RunRefsKeeps(
      w: World, depth: nat, mode: Mode, refs: seq<Ref>, st: PState, inv: PState -> bool)
    requires Stable(w, mode, inv) && inv(st)
    ensures inv(RunRefs(w, depth, mode, refs, st))
    decreases depth, 0, |refs|
  {
    hide Expand, Apply;
    if refs != [] && st.stop == Running {
      match Expand(w, Sig(st.flags), refs[0]) {
        case Nothing =>
        case Note(p) => NoteIsLegal(w, refs[0], st);
        case Assigns(inner) =>
          assert Legal(Halt(Overflowed), st);
          if depth > 0 { RunAssignsKeeps(w, depth - 1, mode, inner, st, inv); }
      }
      RunRefsKeeps(w, depth, mode, refs[1..], Follow(w, depth, mode, refs[0], st), inv);
    }
  }

  lemma NoteIsLegal(w: World, ref: Ref, st: PState)
    requires Expand(w, Sig(st.flags), ref).Note? && st.stop == Running
    ensures Legal(Expand(w, Sig(st.flags), ref).prim, st)
  {
  }
}
