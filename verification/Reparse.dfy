/** ReparseCommandLineNonHelpFlags: a second parse of the same command line, which starts with the
    recursive flags as the first one left them. */
module Reparse {
  import Text
  import Values
  import opened Flags
  import Names
  import opened Flagfile
  import opened Engine
  import opened ParseProofs
  import opened Argv
  import opened ArgvProofs
  import opened References
  import opened CommandLine
  import opened CommandLineEnds
  import RoundTrip

  /** The state that a new CommandLineFlagParser starts from. */
  function NewParse(flags: FlagTable): PState {
    PState(flags, map[], {}, [], Running)
  }

  ghost predicate SameValues(a: FlagTable, b: FlagTable) {
    a.Keys == b.Keys && forall n | n in a :: a[n].current == b[n].current
  }

  /** The recursive flags of `flags` hold nothing. */
  predicate NoPresets(flags: FlagTable) {
    forall x | IsRecursive(x) && x in flags :: Contents(flags[x]) == ""
  }

  /** The recursive flags have the same values in both tables. */
  predicate SamePresets(a: FlagTable, b: FlagTable) {
    forall x | IsRecursive(x) && x in a && x in b :: a[x].current == b[x].current
  }

  // ----- The last accepted assignment of two runs in a row -----

  lemma {:induction false} LastOfTwo(w: World, n: string, f: FlagState, a: seq<Prim>, b: seq<Prim>)
    ensures LastAccepted(w, n, f, a + b) ==
      if SetsWell(w, n, f, b) then LastAccepted(w, n, f, b) else LastAccepted(w, n, f, a)
  {
    hide Accepts, AcceptedValue;
    if b == [] {
      assert a + b == a;
    } else {
      var c, p := b[..|b| - 1], b[|b| - 1];
      assert (a + b)[..|a + b| - 1] == a + c && (a + b)[|a + b| - 1] == p;
      LastOfTwo(w, n, f, a, c);
    }
  }

  lemma {:induction false} SetsWellIn(w: World, n: string, f: FlagState, ps: seq<Prim>)
    ensures SetsWell(w, n, f, ps) <==> exists text :: Set(n, text) in ps && Accepts(w, n, f, text)
  {
    hide Accepts;
    if ps != [] {
      var qs, p := ps[..|ps| - 1], ps[|ps| - 1];
      assert ps == qs + [p];
      SetsWellIn(w, n, f, qs);
    }
  }

  lemma {:induction false} SetsWellShape(w: World, n: string, f: FlagState, g: FlagState, ps: seq<Prim>)
    requires SameShape(f, g)
    ensures SetsWell(w, n, f, ps) == SetsWell(w, n, g, ps)
    ensures SetsWell(w, n, f, ps) ==> LastAccepted(w, n, f, ps) == LastAccepted(w, n, g, ps)
  {
    hide Accepts, AcceptedValue;
    if ps != [] {
      SameShapeAccepts(w, n, f, g);
      SetsWellShape(w, n, f, g, ps[..|ps| - 1]);
    }
  }

  // ----- No presets: the second parse follows what the first one assigned -----

  ghost predicate EveryRan(w: World, flags: FlagTable, depth: nat, root: Place, r: PState) {
    forall p: seq<Ref>, a: Assign | IsPath(w, flags, root, p) ::
      Ran(w, flags, depth, a in End(w, flags, root, p).assigns, p, a, r)
  }

  lemma EmptyPreset(w: World, depth: nat, x: string, st: PState)
    requires x in st.flags && IsRecursive(x) && Contents(st.flags[x]) == ""
    ensures FollowPreset(w, depth, x, st) == st
  {
  }

  lemma FirstParse(w: World, depth: nat, args: seq<string>, flags: FlagTable)
    requires WellFormed(flags) && NoPresets(flags)
    ensures RunCommandLine(w, depth, args, NewParse(flags)) == RunArgs(w, depth, args, NewParse(flags))
  {
    hide FollowPreset, RunArgs;
    EmptyPreset(w, depth, FLAGFILE, NewParse(flags));
    EmptyPreset(w, depth, FROMENV, NewParse(flags));
    EmptyPreset(w, depth, TRYFROMENV, NewParse(flags));
  }

  lemma FirstFacts(w: World, depth: nat, args: seq<string>, flags: FlagTable)
    requires WellFormed(flags) && RunArgs(w, depth, args, NewParse(flags)).stop == Running
    ensures var r := RunArgs(w, depth, args, NewParse(flags));
            var root := Start(w, flags, [], args);
            && Tracked(w, flags, root, depth, 0, r) && EveryRan(w, flags, depth, root, r)
            && Replays(w, SetFlagsValue, NewParse(flags), r) && Kept(flags, r)
  {
    var st0, events := NewParse(flags), ScanArgs(Sig(flags), args).events;
    var r, root := RunArgs(w, depth, args, st0), Start(w, flags, [], args);
    hide WellFormed, Stage, Tracked, RunEvents, ScanArgs, Sig, LegalEvents, Ran, IsPath, End, Kept, Replays;
    FirstStage(w, depth, st0);
    ArgsStage(w, depth, args, [], st0, st0);
    TrackedFacts(w, flags, root, depth, 0, r);
    RunArgsKeeps(w, depth, args, st0);
    ScanLegal(Sig(flags), args);
    SelfKept(st0);
    forall p: seq<Ref>, a: Assign | IsPath(w, flags, root, p)
      ensures Ran(w, flags, depth, a in End(w, flags, root, p).assigns, p, a, r)
    {
      RunsEvents(w, flags, depth, events, p, a, st0);
    }
  }

  /** What a run followed to its end can be read, and fits on the stack. */
  lemma RanIsSafe(w: World, flags: FlagTable, depth: nat, root: Place, r: PState)
    requires EveryRan(w, flags, depth, root, r)
    ensures !Within(w, flags, root, depth, Halt(Exited)) && !Within(w, flags, root, depth, Halt(Overflowed))
  {
    hide IsPath, End, RefsOf, Sig, Expand;
    forall a | Reachable(w, flags, root, a) && IsAccepted(w, flags, a) ensures RefsOf(a.name, a.text).Some? {
      var p: seq<Ref> :| IsPath(w, flags, root, p) && a in End(w, flags, root, p).assigns;
      assert Ran(w, flags, depth, a in End(w, flags, root, p).assigns, p, a, r);
    }
    forall p: seq<Ref> | IsPath(w, flags, root, p) && p != []
      ensures p[|p| - 1].FileRef? ==> p[|p| - 1].file in w.files
      ensures Expand(w, Sig(flags), p[|p| - 1]).Assigns? ==> |p| <= depth
    {
      var a := Assign("", "");
      assert Ran(w, flags, depth, a in End(w, flags, root, p).assigns, p, a, r);
    }
  }

  /** A preset of the second parse. */
  lemma SecondPass(
      w: World, flags: FlagTable, root: Place, depth: nat, x: string, r: PState, st: PState)
    requires WellFormed(flags) && NoPresets(flags) && IsRecursive(x) && Kept(flags, r)
    requires Replays(w, SetFlagsValue, NewParse(flags), r) && Tracked(w, flags, root, depth, 0, r)
    requires Replays(w, SetFlagsValue, NewParse(r.flags), st) && Tracked(w, flags, root, depth, 0, st)
    ensures var next := FollowPreset(w, depth, x, st);
            Replays(w, SetFlagsValue, NewParse(r.flags), next) && Tracked(w, flags, root, depth, 0, next)
  {
    KeptIsWellFormed(flags, r);
    RecursiveKnown(flags, x);
    hide Replays, WellFormed, Tracked, Kept, RefsOf, RunList, IsAccepted, Reachable, FollowPreset, Contents;
    ReplaysStable(w, SetFlagsValue, NewParse(r.flags));
    FollowPresetKeeps(w, depth, x, st, s => Replays(w, SetFlagsValue, NewParse(r.flags), s));
    if st.stop != Running {
      StoppedPreset(w, depth, x, st);
      return;
    }
    ValueAfter(w, NewParse(r.flags), st, x);
    var text := Contents(st.flags[x]);
    if t :| SetTo(w, r.flags, x, st.trace, t) {
      KeptAccepts(w, flags, r, Assign(x, text));
      SetReachable(w, flags, root, depth, x, text, st);
      PresetList(w, depth, x, st);
      ReachedList(w, flags, root, depth, 0, x, text, st);
    } else {
      ValueAfter(w, NewParse(flags), r, x);
      if t :| SetTo(w, flags, x, r.trace, t) {
        SetReachable(w, flags, root, depth, x, text, r);
        PresetList(w, depth, x, st);
        ReachedList(w, flags, root, depth, 0, x, text, st);
      } else {
        EmptyPreset(w, depth, x, st);
      }
    }
  }

  lemma PresetList(w: World, depth: nat, x: string, st: PState)
    requires st.stop == Running && x in st.flags
    ensures FollowPreset(w, depth, x, st) == RunList(w, depth, SetFlagsValue, x, Contents(st.flags[x]), st)
  {
  }

  /** The presets of the second parse do nothing that the first parse did not do. */
  lemma SecondPresets(w: World, depth: nat, args: seq<string>, flags: FlagTable)
    requires WellFormed(flags) && NoPresets(flags)
    requires RunArgs(w, depth, args, NewParse(flags)).stop == Running
    ensures var r := RunArgs(w, depth, args, NewParse(flags));
            var m := FollowPresets(w, depth, NewParse(r.flags));
            && m.stop == Running && Kept(flags, m)
            && forall n, text | Set(n, text) in m.trace && IsAccepted(w, flags, Assign(n, text)) ::
                 Set(n, text) in r.trace
  {
    var r, root := RunArgs(w, depth, args, NewParse(flags)), Start(w, flags, [], args);
    var s0 := NewParse(r.flags);
    hide WellFormed, Replays, Tracked, Kept, RunArgs, FollowPreset, EveryRan, NoPresets, Within, IsAccepted;
    FirstFacts(w, depth, args, flags);
    KeptAnew(flags, r);
    TrackedStart(w, flags, root, depth, s0);
    ReplaysSelf(w, SetFlagsValue, s0);
    var s1 := FollowPreset(w, depth, FLAGFILE, s0);
    var s2 := FollowPreset(w, depth, FROMENV, s1);
    var m := FollowPreset(w, depth, TRYFROMENV, s2);
    SecondPass(w, flags, root, depth, FLAGFILE, r, s0);
    SecondPass(w, flags, root, depth, FROMENV, r, s1);
    SecondPass(w, flags, root, depth, TRYFROMENV, r, s2);
    TrackedFacts(w, flags, root, depth, 0, m);
    RanIsSafe(w, flags, depth, root, r);
    forall n, text | Set(n, text) in m.trace && IsAccepted(w, flags, Assign(n, text))
      ensures Set(n, text) in r.trace
    {
      TrackedSet(w, flags, root, depth, n, text, m);
      ReachableRan(w, flags, depth, root, Assign(n, text), r);
    }
  }

  lemma KeptAnew(flags: FlagTable, r: PState)
    requires Kept(flags, r)
    ensures Kept(flags, NewParse(r.flags))
  {
  }

  lemma TrackedSet(w: World, flags: FlagTable, root: Place, depth: nat, n: string, text: string, st: PState)
    requires Tracked(w, flags, root, depth, 0, st) && Set(n, text) in st.trace
    ensures Reachable(w, flags, root, Assign(n, text))
  {
    hide Reachable, Kept;
  }

  lemma ReachableRan(w: World, flags: FlagTable, depth: nat, root: Place, a: Assign, r: PState)
    requires EveryRan(w, flags, depth, root, r) && Reachable(w, flags, root, a) && IsAccepted(w, flags, a)
    ensures Set(a.name, a.text) in r.trace
  {
    hide IsPath, End, RefsOf, Sig, Expand;
    var p: seq<Ref> :| IsPath(w, flags, root, p) && a in End(w, flags, root, p).assigns;
    assert Ran(w, flags, depth, a in End(w, flags, root, p).assigns, p, a, r);
  }

  // ----- Parsing again -----

  /** Two runs over the same arguments make the same attempts, the second one after `m`. */
  lemma ArgsAgain(w: World, depth: nat, args: seq<string>, again: seq<string>, s: PState, m: PState)
    requires WellFormed(s.flags) && SameShapes(s.flags, m.flags) && s.stop == Running && m.stop == Running
    requires ScanArgs(Sig(s.flags), again).events == ScanArgs(Sig(s.flags), args).events
    ensures var r, r2 := RunArgs(w, depth, args, s), RunArgs(w, depth, again, m);
            && r2.stop == r.stop && |s.trace| <= |r.trace|
            && r2.trace == m.trace + r.trace[|s.trace|..]
  {
    SameSig(s.flags, m.flags);
    hide RunEvents, WellFormed, SameShapes, ScanArgs;
    assert s.trace[|s.trace|..] == m.trace[|m.trace|..] == [];
    RunEventsInStep(w, depth, ScanArgs(Sig(s.flags), args).events, s.trace, m.trace, s, m);
  }

  /** Any value after the second parse. `before` is what its presets do. */
  lemma ValueAgain(w: World, n: string, flags: FlagTable, r: PState, before: seq<Prim>, r2: PState)
    requires WellFormed(flags) && Kept(flags, r) && n in flags
    requires Replays(w, SetFlagsValue, NewParse(flags), r) && Replays(w, SetFlagsValue, NewParse(r.flags), r2)
    requires r2.trace == before + r.trace
    requires forall text | Set(n, text) in before && IsAccepted(w, flags, Assign(n, text)) :: Set(n, text) in r.trace
    ensures n in r.flags && n in r2.flags && r2.flags[n].current == r.flags[n].current
  {
    KeptIsWellFormed(flags, r);
    KeptShape(flags, r, n);
    WellTypedAt(flags, n);
    WellTypedAt(r.flags, n);
    hide WellFormed, Kept, ApplyAll, Accepts, LastAccepted, SetsWell, Sets, SameShape;
    var f, g := flags[n], r.flags[n];
    assert r.trace[|NewParse(flags).trace|..] == r.trace;
    assert r2.trace[|NewParse(r.flags).trace|..] == r2.trace;
    FlagAfter(w, n, r.trace, NewParse(flags));
    FlagAfter(w, n, r2.trace, NewParse(r.flags));
    LastOfTwo(w, n, g, before, r.trace);
    SetsWellShape(w, n, f, g, r.trace);
    SetsWellShape(w, n, f, g, before);
    SetsWellIn(w, n, f, r.trace);
    SetsWellIn(w, n, f, before);
    if !SetsWell(w, n, f, r.trace) {
      assert !SetsWell(w, n, g, before);
      NoneAccepted(w, n, g, before);
    }
  }

  lemma KeptShape(flags: FlagTable, r: PState, n: string)
    requires Kept(flags, r) && n in flags
    ensures n in r.flags && SameShape(flags[n], r.flags[n])
  {
  }

  /** With the recursive flags empty before the first parse, a second one of the same command line changes
      no value, although it first follows what the first one left in them. */
  lemma AgainWithoutPresets(w: World, depth: nat, args: seq<string>, again: seq<string>, flags: FlagTable)
    requires WellFormed(flags) && NoPresets(flags)
    requires ScanArgs(Sig(flags), again).events == ScanArgs(Sig(flags), args).events
    requires RunCommandLine(w, depth, args, NewParse(flags)).stop == Running
    ensures var r := RunCommandLine(w, depth, args, NewParse(flags));
            var r2 := RunCommandLine(w, depth, again, NewParse(r.flags));
            r2.stop == Running && SameValues(r.flags, r2.flags)
  {
    FirstParse(w, depth, args, flags);
    var r := RunArgs(w, depth, args, NewParse(flags));
    hide WellFormed, RunArgs, FollowPresets, NoPresets, ScanArgs, Sig, Kept, Replays, Tracked, EveryRan;
    SecondPresets(w, depth, args, flags);
    FirstFacts(w, depth, args, flags);
    var m := FollowPresets(w, depth, NewParse(r.flags));
    var r2 := RunCommandLine(w, depth, again, NewParse(r.flags));
    KeptSame(flags, m);
    ArgsAgain(w, depth, args, again, NewParse(flags), m);
    assert r.trace[|NewParse(flags).trace|..] == r.trace;
    AllValuesAgain(w, depth, again, flags, r, m.trace, r2);
  }

  lemma KeptSame(flags: FlagTable, st: PState)
    requires Kept(flags, st)
    ensures SameShapes(flags, st.flags)
  {
  }

  lemma AllValuesAgain(
      w: World, depth: nat, again: seq<string>, flags: FlagTable, r: PState, before: seq<Prim>, r2: PState)
    requires WellFormed(flags) && Kept(flags, r) && Replays(w, SetFlagsValue, NewParse(flags), r)
    requires r2 == RunCommandLine(w, depth, again, NewParse(r.flags)) && r2.trace == before + r.trace
    requires forall n, text | Set(n, text) in before && IsAccepted(w, flags, Assign(n, text)) ::
      Set(n, text) in r.trace
    ensures SameValues(r.flags, r2.flags)
  {
    KeptIsWellFormed(flags, r);
    KeptKeys(flags, r);
    RunCommandLineFacts(w, depth, again, NewParse(r.flags));
    hide WellFormed, RunCommandLine, Kept, Replays, IsAccepted;
    forall n | n in r.flags ensures n in r2.flags && r2.flags[n].current == r.flags[n].current {
      ValueAgain(w, n, flags, r, before, r2);
    }
  }

  // ----- Presets that the first parse leaves as they were -----

  /** Following a preset of the same value. */
  lemma PresetInStep(w: World, depth: nat, x: string, a: seq<Prim>, b: seq<Prim>, s: PState, t: PState)
    requires InStep(a, b, s, t) && x in s.flags && x in t.flags
    requires Contents(s.flags[x]) == Contents(t.flags[x])
    ensures InStep(a, b, FollowPreset(w, depth, x, s), FollowPreset(w, depth, x, t))
  {
    hide InStep, RunRefs, RefsOf;
    InStepStops(a, b, s, t);
    if s.stop == Running {
      match RefsOf(x, Contents(s.flags[x]))
      case None => ApplyInStep(w, Halt(Exited), a, b, s, t);
      case Some(refs) => RunRefsInStep(w, depth, refs, a, b, s, t);
    }
  }

  lemma InStepStops(a: seq<Prim>, b: seq<Prim>, s: PState, t: PState)
    requires InStep(a, b, s, t)
    ensures s.stop == t.stop && SameShapes(s.flags, t.flags)
    ensures a == b == [] ==> s.trace == t.trace
  {
    assert s.trace[0..] == s.trace && t.trace[0..] == t.trace;
  }

  /** After the same attempts, a flag that started with the same value has the same value. */
  lemma SameStartSameValue(w: World, x: string, a: FlagTable, b: FlagTable, s: PState, t: PState)
    requires WellFormed(a) && WellFormed(b) && SameShapes(a, b) && x in a && a[x].current == b[x].current
    requires Replays(w, SetFlagsValue, NewParse(a), s) && Replays(w, SetFlagsValue, NewParse(b), t)
    requires s.trace == t.trace
    ensures x in s.flags && x in t.flags && s.flags[x].current == t.flags[x].current
  {
    WellTypedAt(a, x);
    WellTypedAt(b, x);
    hide WellFormed, ApplyAll, LastAccepted, SetsWell, Sets, SameShape;
    assert s.trace[|NewParse(a).trace|..] == s.trace && t.trace[|NewParse(b).trace|..] == t.trace;
    FlagAfter(w, x, s.trace, NewParse(a));
    FlagAfter(w, x, t.trace, NewParse(b));
    LastAcceptedTwice(w, x, a[x], b[x], s.trace);
  }

  lemma StagesInStep(w: World, depth: nat, x: string, a: FlagTable, b: FlagTable, s: PState, t: PState)
    requires WellFormed(a) && WellFormed(b) && SameShapes(a, b) && SamePresets(a, b) && IsRecursive(x)
    requires Replays(w, SetFlagsValue, NewParse(a), s) && Replays(w, SetFlagsValue, NewParse(b), t)
    requires InStep([], [], s, t)
    ensures var s2, t2 := FollowPreset(w, depth, x, s), FollowPreset(w, depth, x, t);
            && InStep([], [], s2, t2)
            && Replays(w, SetFlagsValue, NewParse(a), s2) && Replays(w, SetFlagsValue, NewParse(b), t2)
  {
    RecursiveKnown(a, x);
    RecursiveKnown(b, x);
    hide WellFormed, InStep, SameShapes, Replays, FollowPreset;
    InStepStops([], [], s, t);
    SameStartSameValue(w, x, a, b, s, t);
    PresetInStep(w, depth, x, [], [], s, t);
    ReplaysStable(w, SetFlagsValue, NewParse(a));
    ReplaysStable(w, SetFlagsValue, NewParse(b));
    FollowPresetKeeps(w, depth, x, s, u => Replays(w, SetFlagsValue, NewParse(a), u));
    FollowPresetKeeps(w, depth, x, t, u => Replays(w, SetFlagsValue, NewParse(b), u));
  }

  lemma StartInStep(a: FlagTable, b: FlagTable)
    requires SameShapes(a, b)
    ensures InStep([], [], NewParse(a), NewParse(b))
  {
  }

  /** If the first parse leaves the recursive flags with the values they had before it, the second one makes
      the same attempts from the first preset on and changes no value. */
  lemma AgainWithSamePresets(w: World, depth: nat, args: seq<string>, again: seq<string>, flags: FlagTable)
    requires WellFormed(flags)
    requires ScanArgs(Sig(flags), again).events == ScanArgs(Sig(flags), args).events
    requires var r := RunCommandLine(w, depth, args, NewParse(flags));
             r.stop == Running && SamePresets(flags, r.flags)
    ensures var r := RunCommandLine(w, depth, args, NewParse(flags));
            var r2 := RunCommandLine(w, depth, again, NewParse(r.flags));
            r2.stop == Running && SameValues(r.flags, r2.flags)
  {
    var r := RunCommandLine(w, depth, args, NewParse(flags));
    var r2 := RunCommandLine(w, depth, again, NewParse(r.flags));
    RunCommandLineFacts(w, depth, args, NewParse(flags));
    KeptShapes(SetFlagsValue, NewParse(flags), r);
    KeptWellFormed(SetFlagsValue, NewParse(flags), r);
    hide WellFormed, RunArgs, FollowPreset, ScanArgs, Sig, SameShapes, Replays, InStep, SamePresets, KeepsFlags;
    var s0, t0 := NewParse(flags), NewParse(r.flags);
    StartInStep(flags, r.flags);
    ReplaysSelf(w, SetFlagsValue, s0);
    ReplaysSelf(w, SetFlagsValue, t0);
    var s1, t1 := FollowPreset(w, depth, FLAGFILE, s0), FollowPreset(w, depth, FLAGFILE, t0);
    var s2, t2 := FollowPreset(w, depth, FROMENV, s1), FollowPreset(w, depth, FROMENV, t1);
    var s3, t3 := FollowPreset(w, depth, TRYFROMENV, s2), FollowPreset(w, depth, TRYFROMENV, t2);
    StagesInStep(w, depth, FLAGFILE, flags, r.flags, s0, t0);
    StagesInStep(w, depth, FROMENV, flags, r.flags, s1, t1);
    StagesInStep(w, depth, TRYFROMENV, flags, r.flags, s2, t2);
    InStepStops([], [], s3, t3);
    PresetsKeepSig(w, depth, flags);
    ArgsInStep(w, depth, args, again, s3, t3);
    InStepStops([], [], r, r2);
    RunCommandLineFacts(w, depth, again, t0);
    KeptShapes(SetFlagsValue, t0, r2);
    forall n | n in r.flags ensures n in r2.flags && r2.flags[n].current == r.flags[n].current {
      SameTraceSameValue(w, n, flags, r, r2);
    }
    ShapesKeys(r.flags, r2.flags);
  }

  lemma ShapesKeys(a: FlagTable, b: FlagTable)
    requires SameShapes(a, b)
    ensures a.Keys == b.Keys
  {
  }

  lemma PresetsKeepSig(w: World, depth: nat, flags: FlagTable)
    requires WellFormed(flags)
    ensures Sig(FollowPresets(w, depth, NewParse(flags)).flags) == Sig(flags)
  {
    hide WellFormed, KeepsFlags, FollowPresets, Sig;
    KeepsFlagsStable(w, NewParse(flags));
    FollowPresetsKeeps(w, depth, NewParse(flags), s => KeepsFlags(SetFlagsValue, NewParse(flags), s));
    SameSigKept(NewParse(flags), FollowPresets(w, depth, NewParse(flags)));
  }

  lemma ArgsInStep(w: World, depth: nat, args: seq<string>, again: seq<string>, s: PState, t: PState)
    requires InStep([], [], s, t)
    requires ScanArgs(Sig(s.flags), again).events == ScanArgs(Sig(s.flags), args).events
    ensures InStep([], [], RunArgs(w, depth, args, s), RunArgs(w, depth, again, t))
  {
    InStepStops([], [], s, t);
    SameSig(s.flags, t.flags);
    hide InStep, RunEvents, ScanArgs, Sig;
    RunEventsInStep(w, depth, ScanArgs(Sig(s.flags), args).events, [], [], s, t);
  }

  lemma SameTraceSameValue(w: World, n: string, flags: FlagTable, r: PState, r2: PState)
    requires WellFormed(flags) && SameShapes(flags, r.flags) && WellFormed(r.flags) && n in flags
    requires Replays(w, SetFlagsValue, NewParse(flags), r) && Replays(w, SetFlagsValue, NewParse(r.flags), r2)
    requires r2.trace == r.trace
    ensures n in r.flags && n in r2.flags && r2.flags[n].current == r.flags[n].current
  {
    WellTypedAt(flags, n);
    WellTypedAt(r.flags, n);
    hide WellFormed, ApplyAll, LastAccepted, SetsWell, Sets, SameShape;
    assert r.trace[|NewParse(flags).trace|..] == r.trace == r2.trace[|NewParse(r.flags).trace|..];
    FlagAfter(w, n, r.trace, NewParse(flags));
    FlagAfter(w, n, r.trace, NewParse(r.flags));
    LastAcceptedTwice(w, n, flags[n], r.flags[n], r.trace);
  }

  // ----- Exactly when a value changes -----

  /** What the arguments of the first parse did, behind its presets. */
  function ArgsTrace(w: World, depth: nat, args: seq<string>, flags: FlagTable): seq<Prim> {
    var before, r := FollowPresets(w, depth, NewParse(flags)), RunCommandLine(w, depth, args, NewParse(flags));
    if |before.trace| <= |r.trace| then r.trace[|before.trace|..] else []
  }

  /** The second parse leaves a flag as it is if and only if its presets do or the arguments assign it. */
  lemma AgainExactly(w: World, depth: nat, args: seq<string>, again: seq<string>, flags: FlagTable, n: string)
    requires WellFormed(flags) && n in flags
    requires ScanArgs(Sig(flags), again).events == ScanArgs(Sig(flags), args).events
    requires var r := RunCommandLine(w, depth, args, NewParse(flags));
             r.stop == Running && FollowPresets(w, depth, NewParse(r.flags)).stop == Running
    ensures var r := RunCommandLine(w, depth, args, NewParse(flags));
            var m := FollowPresets(w, depth, NewParse(r.flags));
            var r2 := RunCommandLine(w, depth, again, NewParse(r.flags));
            && n in r.flags && n in m.flags && n in r2.flags && r2.stop == Running
            && (r2.flags[n].current == r.flags[n].current <==>
                  || m.flags[n].current == r.flags[n].current
                  || SetsWell(w, n, flags[n], ArgsTrace(w, depth, args, flags)))
  {
    var s0 := NewParse(flags);
    var s, r := FollowPresets(w, depth, s0), RunCommandLine(w, depth, args, s0);
    var t0 := NewParse(r.flags);
    var m, r2 := FollowPresets(w, depth, t0), RunCommandLine(w, depth, again, t0);
    RunCommandLineFacts(w, depth, args, s0);
    KeptShapes(SetFlagsValue, s0, r);
    KeptWellFormed(SetFlagsValue, s0, r);
    hide WellFormed, RunArgs, FollowPresets, ScanArgs, Sig, KeepsFlags, Replays, LastAccepted, SetsWell, SameShapes;
    PresetsKept(w, depth, flags);
    PresetsKept(w, depth, r.flags);
    ShapesJoin(flags, s.flags, r.flags, m.flags, n);
    PresetsKeepSig(w, depth, flags);
    ArgsAgain(w, depth, args, again, s, m);
    RunArgsKeeps(w, depth, args, s);
    RunArgsKeeps(w, depth, again, m);
    ArgsDecide(w, n, flags[n], s, m, r, r2, r.trace[|s.trace|..]);
  }

  lemma PresetsKept(w: World, depth: nat, flags: FlagTable)
    requires WellFormed(flags)
    ensures var s := FollowPresets(w, depth, NewParse(flags)); WellFormed(s.flags) && SameShapes(flags, s.flags)
  {
    var s0 := NewParse(flags);
    hide WellFormed, KeepsFlags, FollowPresets, SameShapes;
    KeepsFlagsStable(w, s0);
    FollowPresetsKeeps(w, depth, s0, s => KeepsFlags(SetFlagsValue, s0, s));
    KeptShapes(SetFlagsValue, s0, FollowPresets(w, depth, s0));
    KeptWellFormed(SetFlagsValue, s0, FollowPresets(w, depth, s0));
  }

  lemma ShapesJoin(a: FlagTable, b: FlagTable, c: FlagTable, d: FlagTable, n: string)
    requires SameShapes(a, b) && SameShapes(a, c) && SameShapes(c, d) && n in a
    ensures SameShapes(b, d) && n in b && n in c && n in d && SameShape(a[n], b[n]) && SameShape(a[n], d[n])
  {
  }

  lemma ArgsDecide(
      w: World, n: string, f: FlagState, s: PState, m: PState, r: PState, r2: PState, ps: seq<Prim>)
    requires WellFormed(s.flags) && WellFormed(m.flags) && n in s.flags && n in m.flags
    requires SameShape(f, s.flags[n]) && SameShape(f, m.flags[n])
    requires Replays(w, SetFlagsValue, s, r) && r.trace[|s.trace|..] == ps
    requires Replays(w, SetFlagsValue, m, r2) && r2.trace == m.trace + ps
    ensures n in r.flags && n in r2.flags
    ensures r2.flags[n].current == r.flags[n].current <==>
              m.flags[n].current == r.flags[n].current || SetsWell(w, n, f, ps)
  {
    WellTypedAt(s.flags, n);
    WellTypedAt(m.flags, n);
    hide WellFormed, ApplyAll, LastAccepted, SetsWell, Sets, SameShape;
    assert r2.trace[|m.trace|..] == ps;
    FlagAfter(w, n, ps, s);
    FlagAfter(w, n, ps, m);
    SetsWellShape(w, n, f, s.flags[n], ps);
    SetsWellShape(w, n, f, m.flags[n], ps);
    if !SetsWell(w, n, f, ps) { NoneAccepted(w, n, m.flags[n], ps); }
  }

  // ----- A preset that the first parse replaces -----

  /** A string flag without validator takes any text. */
  predicate FreeString(flags: FlagTable, n: string) {
    n in flags && Values.TypeOf(flags[n].current) == Values.FvString && flags[n].validator.None?
  }

  /** The file h is `--flagfile=g` and then `--y=1`; the file g is `--y=2`. */
  predicate TwoFiles(w: World) {
    && "h" in w.files && "g" in w.files
    && w.files["h"] == RoundTrip.PrintFlags([RoundTrip.Printed(FLAGFILE, "g"), RoundTrip.Printed("y", "1")])
    && w.files["g"] == RoundTrip.PrintFlags([RoundTrip.Printed("y", "2")])
  }

  lemma FreeStringSet(w: World, flags: FlagTable, n: string, text: string, st: PState)
    requires Kept(flags, st) && st.stop == Running && FreeString(flags, n)
    ensures IsAccepted(w, flags, Assign(n, text))
    ensures var done := Apply(w, SetFlagsValue, Set(n, text), st);
            && n in st.flags && done.stop == Running && Kept(flags, done)
            && done.flags == st.flags[n := st.flags[n].(current := Values.StringValue(text), modified := true)]
  {
    KeptShape(flags, st, n);
    ApplyKept(w, flags, Set(n, text), st);
    SetValue(w, n, st.flags[n], text);
    hide Kept;
  }

  lemma OneSet(w: World, flags: FlagTable, depth: nat, n: string, text: string, st: PState)
    requires Kept(flags, st) && st.stop == Running && FreeString(flags, n) && !IsRecursive(n)
    ensures var r := RunAssigns(w, depth, SetFlagsValue, [Assign(n, text)], st);
            && n in st.flags && r.stop == Running && Kept(flags, r)
            && r.flags == st.flags[n := st.flags[n].(current := Values.StringValue(text), modified := true)]
  {
    hide Kept, Apply, SetStep, StepRefs;
    FreeStringSet(w, flags, n, text, st);
    SetEffect(w, flags, Assign(n, text), st);
    ParserSteps.StoppedRefs(w, depth, SetFlagsValue, []);
    ParserSteps.StoppedAssigns(w, depth, SetFlagsValue, []);
    assert [Assign(n, text)][1..] == [];
  }

  /** Following one file. */
  lemma OneFile(w: World, flags: FlagTable, depth: nat, file: string, ps: seq<RoundTrip.Printed>, st: PState)
    requires Kept(flags, st) && st.stop == Running && depth > 0
    requires Names.GoodPiece(file) && ',' !in file && Text.NUL !in file
    requires file in w.files && w.files[file] == RoundTrip.PrintFlags(ps)
    requires RoundTrip.AllPrintable(ps) && forall i | 0 <= i < |ps| :: ps[i].name in flags
    ensures RunList(w, depth, SetFlagsValue, FLAGFILE, file, st) ==
            RunAssigns(w, depth - 1, SetFlagsValue, RoundTrip.AssignsOf(ps), st)
  {
    KeptAccepts(w, flags, st, Assign("", ""));
    Names.FlagListRoundTrip([file]);
    hide Kept, RunAssigns, TextAssigns, Names.FlagList, RoundTrip.AllPrintable;
    RoundTrip.PrintedTextAssigns(ProgramMatcher(w), Sig(st.flags), ps);
    ParserSteps.ListStart(w, depth, SetFlagsValue, FLAGFILE, file, st);
    ParserSteps.FollowFile(w, depth, SetFlagsValue, file, st);
    ParserSteps.StoppedRefs(w, depth, SetFlagsValue, []);
    var refs := ParserSteps.ListRefs(FLAGFILE, [file]);
    assert refs == [FileRef(file)] && refs[1..] == [];
  }

  /** Carrying out a reference to the file g. */
  lemma NestedFile(w: World, flags: FlagTable, depth: nat, st: PState)
    requires TwoFiles(w) && Kept(flags, st) && st.stop == Running && depth > 0
    requires FreeString(flags, FLAGFILE) && FreeString(flags, "y")
    ensures var r := RunAssigns(w, depth, SetFlagsValue, [Assign(FLAGFILE, "g")], st);
            && r.stop == Running && Kept(flags, r) && FLAGFILE in st.flags && "y" in st.flags
            && r.flags.Keys == st.flags.Keys
            && r.flags[FLAGFILE].current == Values.StringValue("g") && r.flags["y"].current == Values.StringValue("2")
            && forall n | n in st.flags && n != FLAGFILE && n != "y" :: r.flags[n] == st.flags[n]
  {
    hide Kept, Apply, RunList, RunAssigns, FreeString, TwoFiles, IsAccepted;
    var done := Apply(w, SetFlagsValue, Set(FLAGFILE, "g"), st);
    FreeStringSet(w, flags, FLAGFILE, "g", st);
    KnownString(flags, "y");
    FileG(w, flags, depth, done);
    OneSet(w, flags, depth - 1, "y", "2", done);
    SingleList(w, flags, depth, FLAGFILE, "g", st);
  }

  lemma KnownString(flags: FlagTable, n: string)
    requires FreeString(flags, n)
    ensures n in flags
  {
  }

  lemma FileG(w: World, flags: FlagTable, depth: nat, st: PState)
    requires TwoFiles(w) && Kept(flags, st) && st.stop == Running && depth > 0 && "y" in flags
    ensures RunList(w, depth, SetFlagsValue, FLAGFILE, "g", st) ==
            RunAssigns(w, depth - 1, SetFlagsValue, [Assign("y", "2")], st)
  {
    var ps := [RoundTrip.Printed("y", "2")];
    assert RoundTrip.AllPrintable(ps);
    assert RoundTrip.AssignsOf(ps) == [Assign("y", "2")];
    hide Kept, RunAssigns, RunList;
    OneFile(w, flags, depth, "g", ps, st);
  }

  lemma FileH(w: World, flags: FlagTable, depth: nat, st: PState)
    requires TwoFiles(w) && Kept(flags, st) && st.stop == Running && depth > 0 && "y" in flags && FLAGFILE in flags
    ensures RunList(w, depth, SetFlagsValue, FLAGFILE, "h", st) ==
            RunAssigns(w, depth - 1, SetFlagsValue, [Assign(FLAGFILE, "g")] + [Assign("y", "1")], st)
  {
    hide Kept, RunAssigns, RunList, RoundTrip.PrintFlags, RoundTrip.AllPrintable;
    LinesOfH();
    OneFile(w, flags, depth, "h", [RoundTrip.Printed(FLAGFILE, "g"), RoundTrip.Printed("y", "1")], st);
  }

  lemma LinesOfH()
    ensures var ps := [RoundTrip.Printed(FLAGFILE, "g"), RoundTrip.Printed("y", "1")];
            && RoundTrip.AllPrintable(ps)
            && RoundTrip.AssignsOf(ps) == [Assign(FLAGFILE, "g")] + [Assign("y", "1")]
  {
    var ps := [RoundTrip.Printed(FLAGFILE, "g"), RoundTrip.Printed("y", "1")];
    assert RoundTrip.Printable(ps[0]) && RoundTrip.Printable(ps[1]);
  }

  /** An accepted recursive option is its set and then its list. */
  lemma SingleList(w: World, flags: FlagTable, depth: nat, x: string, text: string, st: PState)
    requires Kept(flags, st) && st.stop == Running && FreeString(flags, x) && IsRecursive(x)
    ensures x in st.flags && RunAssigns(w, depth, SetFlagsValue, [Assign(x, text)], st) ==
      RunList(w, depth, SetFlagsValue, x, text, Apply(w, SetFlagsValue, Set(x, text), st))
  {
    KeptShape(flags, st, x);
    hide Kept, Apply, RunList, RunAssigns, TryParse;
    ParserSteps.SingleOption(w, depth, SetFlagsValue, Assign(x, text), st);
    SetValue(w, x, st.flags[x], text);
    FreeAccepts(w, flags, x, text, st);
  }

  lemma FreeAccepts(w: World, flags: FlagTable, x: string, text: string, st: PState)
    requires Kept(flags, st) && FreeString(flags, x)
    ensures x in st.flags && Accepts(w, x, st.flags[x], text)
    ensures AcceptedValue(w, x, st.flags[x], text) == Values.StringValue(text)
  {
    KeptShape(flags, st, x);
  }

  /** FLAGFILE is preset to h. The first parse of an empty command line ends with y=1 and flagfile=g, so the
      second one follows g alone and ends with y=2. */
  lemma SecondParseDiffers(w: World, depth: nat, flags: FlagTable)
    requires WellFormed(flags) && TwoFiles(w) && depth >= 2
    requires FreeString(flags, FLAGFILE) && FreeString(flags, "y")
    requires flags[FLAGFILE].current == Values.StringValue("h")
    requires Contents(flags[FROMENV]) == "" && Contents(flags[TRYFROMENV]) == ""
    ensures var r := RunCommandLine(w, depth, [], NewParse(flags));
            var r2 := RunCommandLine(w, depth, [], NewParse(r.flags));
            && r.stop == Running && "y" in r.flags && r.flags["y"].current == Values.StringValue("1")
            && r2.stop == Running && "y" in r2.flags && r2.flags["y"].current == Values.StringValue("2")
  {
    var s0 := NewParse(flags);
    var s1 := FollowPreset(w, depth, FLAGFILE, s0);
    hide WellFormed, RunList, RunAssigns, Apply, TwoFiles, FreeString, FollowPreset, RunArgs;
    SelfKept(s0);
    KnownString(flags, "y");
    KnownString(flags, FLAGFILE);
    RecursiveKnown(flags, FROMENV);
    RecursiveKnown(flags, TRYFROMENV);
    PresetList(w, depth, FLAGFILE, s0);
    FileH(w, flags, depth, s0);
    RunAssignsConcat(w, depth - 1, SetFlagsValue, [Assign(FLAGFILE, "g")], [Assign("y", "1")], s0);
    var inner := RunAssigns(w, depth - 1, SetFlagsValue, [Assign(FLAGFILE, "g")], s0);
    hide Kept;
    NestedFile(w, flags, depth - 1, s0);
    OneSet(w, flags, depth - 1, "y", "1", inner);
    NoMorePresets(w, depth, s1);
    KeptAnew(flags, s1);
    var t0 := NewParse(s1.flags);
    PresetList(w, depth, FLAGFILE, t0);
    FileG(w, flags, depth, t0);
    OneSet(w, flags, depth - 1, "y", "2", t0);
    NoMorePresets(w, depth, FollowPreset(w, depth, FLAGFILE, t0));
  }

  /** With the other two presets and the command line empty nothing else happens. */
  lemma NoMorePresets(w: World, depth: nat, st: PState)
    requires FROMENV in st.flags && Contents(st.flags[FROMENV]) == ""
    requires TRYFROMENV in st.flags && Contents(st.flags[TRYFROMENV]) == ""
    ensures FollowPreset(w, depth, TRYFROMENV, FollowPreset(w, depth, FROMENV, st)) == st
    ensures RunArgs(w, depth, [], st) == st
  {
    EmptyPreset(w, depth, FROMENV, st);
    EmptyPreset(w, depth, TRYFROMENV, st);
  }
}
