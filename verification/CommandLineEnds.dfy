/** Exactly when ParseCommandLineFlags comes to an end: recursive flags set before main, then argv. */
module CommandLineEnds {
  import opened Text
  import Values
  import Flags
  import Names
  import opened Flagfile
  import opened Engine
  import opened ParseProofs
  import opened Argv
  import ArgvProofs
  import opened References
  import opened CommandLine
  import Termination

  // ----- Where a command line starts from -----

  function EventAssigns(events: seq<Event>): seq<Assign> {
    if events == [] then []
    else (match events[0] case Do(a) => [a] case Record(_) => []) + EventAssigns(events[1..])
  }

  /** Following `refs` gives the flag `x` a new value. */
  ghost predicate Overwritten(w: World, flags: FlagTable, refs: seq<Ref>, x: string) {
    exists text :: Gives(w, flags, refs, x, text)
  }

  ghost predicate Gives(w: World, flags: FlagTable, refs: seq<Ref>, x: string, text: string) {
    Reachable(w, flags, Place(refs, []), Assign(x, text)) && IsAccepted(w, flags, Assign(x, text))
  }

  /** The list that a flag was set to before the parse, unless the lists followed before it replace it;
      None when it is malformed. */
  ghost function PresetRefs(w: World, flags: FlagTable, before: seq<Ref>, x: string): Option<seq<Ref>>
    requires x in flags
  {
    if Overwritten(w, flags, before, x) then Some([]) else RefsOf(x, Contents(flags[x]))
  }

  ghost function Later(w: World, flags: FlagTable, before: Option<seq<Ref>>, x: string): Option<seq<Ref>>
    requires x in flags
  {
    if before.None? then None
    else
      match PresetRefs(w, flags, before.value, x)
      case None => None
      case Some(refs) => Some(before.value + refs)
  }

  /** The references of all presets that are followed. */
  ghost function Presets(w: World, flags: FlagTable): Option<seq<Ref>>
    requires WellFormed(flags)
  {
    Later(w, flags, Later(w, flags, Later(w, flags, Some([]), FLAGFILE), FROMENV), TRYFROMENV)
  }

  ghost function Start(w: World, flags: FlagTable, refs: seq<Ref>, args: seq<string>): Place {
    Place(refs, EventAssigns(ScanArgs(Sig(flags), args).events))
  }

  // ----- The value of a recursive flag while the presets are followed -----

  /** The value of a recursive flag after a run is the one it had, or the text of an accepted set. */
  ghost predicate ValueFrom(w: World, flags: FlagTable, x: string, trace: seq<Prim>, text: string)
    requires x in flags
  {
    if exists t :: SetTo(w, flags, x, trace, t) then SetTo(w, flags, x, trace, text)
    else text == Contents(flags[x])
  }

  ghost predicate SetTo(w: World, flags: FlagTable, x: string, trace: seq<Prim>, text: string) {
    Set(x, text) in trace && IsAccepted(w, flags, Assign(x, text))
  }

  lemma {:induction false} LastFrom(w: World, flags: FlagTable, x: string, ps: seq<Prim>)
    requires x in flags && Values.TypeOf(flags[x].current) == Values.FvString
    ensures if exists t :: SetTo(w, flags, x, ps, t)
            then exists t :: SetTo(w, flags, x, ps, t) && LastAccepted(w, x, flags[x], ps) == Values.StringValue(t)
            else LastAccepted(w, x, flags[x], ps) == flags[x].current
  {
    hide Accepts, AcceptedValue;
    if ps != [] {
      var qs, p := ps[..|ps| - 1], ps[|ps| - 1];
      LastFrom(w, flags, x, qs);
      assert ps == qs + [p];
      if p.Set? && p.name == x && Accepts(w, x, flags[x], p.text) {
        StringAccepted(w, x, flags[x], p.text);
        assert SetTo(w, flags, x, ps, p.text);
      } else {
        forall t ensures SetTo(w, flags, x, ps, t) <==> SetTo(w, flags, x, qs, t) {
        }
      }
    }
  }

  lemma ValueAfter(w: World, st0: PState, st: PState, x: string)
    requires WellFormed(st0.flags) && st0.trace == [] && Replays(w, Flags.SetFlagsValue, st0, st) && IsRecursive(x)
    ensures x in st0.flags && x in st.flags && ValueFrom(w, st0.flags, x, st.trace, Contents(st.flags[x]))
  {
    hide WellFormed, ApplyAll, LastAccepted, SetTo;
    RecursiveKnown(st0.flags, x);
    WellTypedAt(st0.flags, x);
    assert st.trace[|st0.trace|..] == st.trace;
    FlagAfter(w, x, st.trace, st0);
    LastFrom(w, st0.flags, x, st.trace);
  }

  // ----- Everything that is done is within the graph -----

  lemma EmptyEnd(w: World, flags: FlagTable, refs: seq<Ref>)
    ensures End(w, flags, Place(refs, []), []).assigns == []
  {
  }

  /** A path that ends in some assignment leads there. */
  lemma PathLeads(w: World, flags: FlagTable, root: Place, p: seq<Ref>)
    requires IsPath(w, flags, root, p) && (p == [] || End(w, flags, root, p).assigns != [])
    ensures Leading(w, flags, p)
  {
    hide IsPath, Expand, Sig;
    forall i | 0 <= i < |p| ensures Expand(w, Sig(flags), p[i]).Assigns? {
      if i + 1 < |p| {
        Termination.LeadsOn(w, flags, root, p, i);
      } else {
        BehindExpands(w, flags, p[i]);
      }
    }
  }

  /** The list that is followed for a preset comes from a place that can be reached. */
  lemma PresetTracked(
      w: World, flags: FlagTable, root: Place, depth: nat, x: string, st0: PState, st: PState)
    requires WellFormed(st0.flags) && st0.flags == flags && st0.trace == [] && IsRecursive(x)
    requires Replays(w, Flags.SetFlagsValue, st0, st) && Tracked(w, flags, root, depth, 0, st)
    requires (forall t :: !SetTo(w, flags, x, st.trace, t)) ==>
      var entry := RefsOf(x, Contents(flags[x])); entry.Some? && forall s | s in entry.value :: s in root.refs
    ensures Tracked(w, flags, root, depth, 0, FollowPreset(w, depth, x, st))
  {
    hide WellFormed, Replays, Tracked, IsPath, End, Leading, RefsOf, RunRefs, Apply, Reachable, Within, Kept;
    if st.stop == Running {
      ValueAfter(w, st0, st, x);
      var text := Contents(st.flags[x]);
      if t :| SetTo(w, flags, x, st.trace, t) {
        SetReachable(w, flags, root, depth, x, text, st);
        ReachedList(w, flags, root, depth, 0, x, text, st);
      } else {
        EmptyPath(w, flags, root);
        var refs := RefsOf(x, text).value;
        assert forall s | s in refs :: Offers(w, flags, root, s);
        RefsTracked(w, flags, root, depth, 0, depth, [], refs, st);
      }
    }
  }

  lemma SetReachable(w: World, flags: FlagTable, root: Place, depth: nat, x: string, text: string, st: PState)
    requires Tracked(w, flags, root, depth, 0, st) && SetTo(w, flags, x, st.trace, text)
    ensures Reachable(w, flags, root, Assign(x, text)) && IsAccepted(w, flags, Assign(x, text))
  {
    hide Reachable, IsAccepted, Kept;
  }

  /** A list that was assigned before is followed from where it was found. */
  lemma ReachedList(
      w: World, flags: FlagTable, root: Place, depth: nat, k: nat, x: string, text: string, st: PState)
    requires Tracked(w, flags, root, depth, k, st) && st.stop == Running
    requires Reachable(w, flags, root, Assign(x, text)) && IsAccepted(w, flags, Assign(x, text))
    ensures Tracked(w, flags, root, depth, k, RunList(w, depth, Flags.SetFlagsValue, x, text, st))
  {
    var a := Assign(x, text);
    hide Tracked, IsPath, End, Leading, RefsOf, RunRefs, Apply, Kept, IsAccepted;
    var p: seq<Ref> :| IsPath(w, flags, root, p) && a in End(w, flags, root, p).assigns;
    if RefsOf(x, text).None? {
      assert !Readable(w, flags, root);
      ApplyTracked(w, flags, root, depth, k, Halt(Exited), st);
    } else {
      var refs := RefsOf(x, text).value;
      assert forall s | s in refs :: Holds(w, flags, a, s);
      PathLeads(w, flags, root, p);
      RefsTracked(w, flags, root, depth, k, depth, p, refs, st);
    }
  }

  lemma {:induction false} EventsTracked(
      w: World, flags: FlagTable, root: Place, depth: nat, events: seq<Event>, st: PState)
    requires Tracked(w, flags, root, depth, 0, st) && ArgvProofs.LegalEvents(Sig(flags), events)
    requires forall a | a in EventAssigns(events) :: a in root.assigns
    ensures Tracked(w, flags, root, depth, 0, RunEvents(w, depth, events, st))
  {
    hide Tracked, ArgvProofs.LegalEvent, RunEvent, Sig;
    if events != [] && st.stop == Running {
      EventTracked(w, flags, root, depth, events[0], st);
      EventsTracked(w, flags, root, depth, events[1..], RunEvent(w, depth, events[0], st));
    }
  }

  lemma EventTracked(w: World, flags: FlagTable, root: Place, depth: nat, e: Event, st: PState)
    requires Tracked(w, flags, root, depth, 0, st) && ArgvProofs.LegalEvent(Sig(flags), e) && st.stop == Running
    requires e.Do? ==> e.assign in root.assigns
    ensures Tracked(w, flags, root, depth, 0, RunEvent(w, depth, e, st))
  {
    hide Tracked, Sig, RunAssigns, Apply, IsPath, End, Leading, Names.FindFlag;
    match e
    case Do(a) =>
      EmptyPath(w, flags, root);
      RunTracked(w, flags, root, depth, 0, depth, [], [a], st);
    case Record(p) =>
      ApplyTracked(w, flags, root, depth, 0, p, st);
  }

  // ----- A parse that is not stopped follows every path -----

  /** Every path from `root` was followed. */
  ghost predicate FollowedAll(w: World, flags: FlagTable, depth: nat, root: Place, st: PState) {
    forall p: seq<Ref>, a: Assign | IsPath(w, flags, root, p) && p != [] ::
      Ran(w, flags, depth, a in End(w, flags, root, p).assigns, p, a, st)
  }

  lemma {:induction false} RunsEvents(
      w: World, flags: FlagTable, depth: nat, events: seq<Event>, p: seq<Ref>, a: Assign, st: PState)
    requires Kept(flags, st) && IsPath(w, flags, Place([], EventAssigns(events)), p)
    requires ArgvProofs.LegalEvents(Sig(flags), events) && RunEvents(w, depth, events, st).stop == Running
    ensures Ran(w, flags, depth, a in End(w, flags, Place([], EventAssigns(events)), p).assigns, p, a,
                RunEvents(w, depth, events, st))
  {
    hide Kept, IsPath, End, Ran, RunEvent, ArgvProofs.LegalEvent, Sig, Holds;
    EmptyPath(w, flags, Place([], EventAssigns(events)));
    if p == [] && !(a in EventAssigns(events) && a.name in flags) {
      NothingToRun(w, flags, depth, a in EventAssigns(events), a, RunEvents(w, depth, events, st));
      return;
    }
    var b := Holder(w, flags, EventAssigns(events), p, a);
    var e, rest := events[0], events[1..];
    var st1 := RunEvent(w, depth, e, st);
    var there := a in End(w, flags, Place([], EventAssigns(events)), p).assigns;
    assert st.stop == Running && st1.stop == Running;
    if e == Do(b) {
      EmptyPath(w, flags, Place([], [b]));
      HolderMoves(w, flags, EventAssigns(events), [b], p, a, b);
      DoRuns(w, flags, depth, b, p, a, st);
      if Set(a.name, a.text) in st1.trace { EventsTraceStays(w, depth, rest, Set(a.name, a.text), st1); }
      RanStays(w, flags, depth, there, p, a, st1, RunEvents(w, depth, events, st));
    } else {
      EventKept(w, flags, depth, e, st);
      HolderMoves(w, flags, EventAssigns(events), EventAssigns(rest), p, a, b);
      RunsEvents(w, flags, depth, rest, p, a, st1);
    }
  }

  lemma DoRuns(w: World, flags: FlagTable, depth: nat, b: Assign, p: seq<Ref>, a: Assign, st: PState)
    requires Kept(flags, st) && IsPath(w, flags, Place([], [b]), p)
    requires RunEvent(w, depth, Do(b), st).stop == Running
    ensures Ran(w, flags, depth, a in End(w, flags, Place([], [b]), p).assigns, p, a, RunEvent(w, depth, Do(b), st))
  {
    hide Kept, IsPath, End, Ran, RunAssigns;
    RunsAssigns(w, flags, depth, [b], p, a, st);
  }

  lemma EventKept(w: World, flags: FlagTable, depth: nat, e: Event, st: PState)
    requires Kept(flags, st) && ArgvProofs.LegalEvent(Sig(flags), e) && st.stop == Running
    ensures Kept(flags, RunEvent(w, depth, e, st))
  {
    KeptAccepts(w, flags, st, Assign("", ""));
    hide Kept, Sig, Names.FindFlag, Apply, WellFormed;
    forall p: Prim, s: PState | Kept(flags, s) && Legal(p, s) ensures Kept(flags, Apply(w, Flags.SetFlagsValue, p, s)) {
      ApplyKept(w, flags, p, s);
    }
    KeptIsWellFormed(flags, st);
    ArgvProofs.RunEventKeeps(w, depth, e, st, s => Kept(flags, s));
  }

  lemma KeptIsWellFormed(flags: FlagTable, st: PState)
    requires Kept(flags, st)
    ensures WellFormed(st.flags)
  {
  }

  lemma {:induction false} EventsTraceStays(w: World, depth: nat, events: seq<Event>, prim: Prim, st: PState)
    requires prim in st.trace
    ensures prim in RunEvents(w, depth, events, st).trace
  {
    hide RunAssigns, Apply;
    if events != [] && st.stop == Running {
      match events[0] {
        case Do(a) => TraceStays(w, depth, [a], prim, st);
        case Record(p) => ApplyTraces(w, p, st);
      }
      EventsTraceStays(w, depth, events[1..], prim, RunEvent(w, depth, events[0], st));
    }
  }

  // ----- The stages of a parse -----

  predicate Includes(root: Place, part: Place) {
    && (forall s | s in part.refs :: s in root.refs)
    && (forall a | a in part.assigns :: a in root.assigns)
  }

  lemma PathIncluded(w: World, flags: FlagTable, root: Place, part: Place, p: seq<Ref>)
    requires Includes(root, part) && IsPath(w, flags, part, p)
    ensures IsPath(w, flags, root, p)
    ensures forall a | a in End(w, flags, part, p).assigns :: a in End(w, flags, root, p).assigns
  {
    hide Holds, Behind;
    if p != [] {
      PathTail(w, flags, part, p);
      PathMoves(w, flags, part, root, p);
    }
  }

  lemma WithinIncluded(w: World, flags: FlagTable, root: Place, part: Place, room: nat, prim: Prim)
    requires Includes(root, part) && Within(w, flags, part, room, prim)
    ensures Within(w, flags, root, room, prim)
  {
    hide IsPath, End, Includes, Leading, IsAccepted, RefsOf;
    forall p: seq<Ref> | IsPath(w, flags, part, p) {
      PathIncluded(w, flags, root, part, p);
    }
  }

  lemma TrackedIncluded(w: World, flags: FlagTable, root: Place, part: Place, room: nat, k: nat, st: PState)
    requires Includes(root, part) && Tracked(w, flags, part, room, k, st)
    ensures Tracked(w, flags, root, room, k, st)
  {
    hide Within, Includes, Kept;
    forall prim | Within(w, flags, part, room, prim) {
      WithinIncluded(w, flags, root, part, room, prim);
    }
  }

  /** What is known when the lists `before` have been followed. */
  ghost predicate Stage(w: World, flags: FlagTable, depth: nat, before: seq<Ref>, st0: PState, st: PState) {
    && Replays(w, Flags.SetFlagsValue, st0, st)
    && Tracked(w, flags, Place(before, []), depth, 0, st)
    && (st.stop == Running ==> FollowedAll(w, flags, depth, Place(before, []), st))
  }

  lemma FirstStage(w: World, depth: nat, st: PState)
    requires WellFormed(st.flags) && st.stop == Running && st.trace == []
    ensures Stage(w, st.flags, depth, [], st, st)
  {
    hide WellFormed, Ran, End, Within, IsPath, Replays;
    ArgvProofs.ReplaysSelf(w, Flags.SetFlagsValue, st);
    SelfKept(st);
    TrackedStart(w, st.flags, Place([], []), depth, st);
    forall p: seq<Ref> | p != [] && IsPath(w, st.flags, Place([], []), p) ensures false {
      StartsInRefs(w, st.flags, [], p);
    }
  }

  /** An overwritten preset was indeed assigned. */
  lemma OverwrittenSet(w: World, flags: FlagTable, depth: nat, before: seq<Ref>, x: string, st: PState)
    requires FollowedAll(w, flags, depth, Place(before, []), st) && x in flags
    requires Overwritten(w, flags, before, x)
    ensures exists t :: SetTo(w, flags, x, st.trace, t)
  {
    hide IsPath, End, IsAccepted;
    var text :| Gives(w, flags, before, x, text);
    var a := Assign(x, text);
    var p: seq<Ref> :| IsPath(w, flags, Place(before, []), p) && a in End(w, flags, Place(before, []), p).assigns;
    EmptyEnd(w, flags, before);
    assert Ran(w, flags, depth, a in End(w, flags, Place(before, []), p).assigns, p, a, st);
    assert SetTo(w, flags, x, st.trace, text);
  }

  /** Conversely, what was assigned can be reached. */
  lemma SetOverwrites(w: World, flags: FlagTable, depth: nat, before: seq<Ref>, x: string, t: string, st: PState)
    requires Tracked(w, flags, Place(before, []), depth, 0, st) && SetTo(w, flags, x, st.trace, t)
    ensures Overwritten(w, flags, before, x)
  {
    hide Reachable, IsAccepted, Kept;
    assert Gives(w, flags, before, x, t);
  }

  /** Following one preset. */
  lemma NextStage(w: World, depth: nat, before: seq<Ref>, x: string, st0: PState, st: PState)
    requires WellFormed(st0.flags) && st0.trace == [] && IsRecursive(x) && x in st0.flags
    requires Stage(w, st0.flags, depth, before, st0, st)
    requires Later(w, st0.flags, Some(before), x).Some?
    ensures Stage(w, st0.flags, depth, Later(w, st0.flags, Some(before), x).value, st0, FollowPreset(w, depth, x, st))
  {
    var later, r := Later(w, st0.flags, Some(before), x).value, FollowPreset(w, depth, x, st);
    var part, root := Place(before, []), Place(later, []);
    assert Includes(root, part);
    hide WellFormed, Replays, Tracked, FollowedAll, RefsOf, RunList, Overwritten, SetTo, FollowPreset, Includes;
    ReplaysStable(w, Flags.SetFlagsValue, st0);
    FollowPresetKeeps(w, depth, x, st, s => Replays(w, Flags.SetFlagsValue, st0, s));
    TrackedIncluded(w, st0.flags, root, part, depth, 0, st);
    if st.stop == Running {
      if (forall t :: !SetTo(w, st0.flags, x, st.trace, t)) {
        if Overwritten(w, st0.flags, before, x) { OverwrittenSet(w, st0.flags, depth, before, x, st); }
      }
      PresetTracked(w, st0.flags, root, depth, x, st0, st);
      if r.stop == Running { PresetFollowed(w, depth, before, x, st0, st); }
    } else {
      StoppedPreset(w, depth, x, st);
    }
  }

  lemma StoppedPreset(w: World, depth: nat, x: string, st: PState)
    requires st.stop != Running
    ensures FollowPreset(w, depth, x, st) == st
  {
  }

  lemma PresetFollowed(w: World, depth: nat, before: seq<Ref>, x: string, st0: PState, st: PState)
    requires WellFormed(st0.flags) && st0.trace == [] && IsRecursive(x) && x in st0.flags
    requires Stage(w, st0.flags, depth, before, st0, st) && st.stop == Running
    requires Later(w, st0.flags, Some(before), x).Some?
    requires FollowPreset(w, depth, x, st).stop == Running
    ensures FollowedAll(w, st0.flags, depth, Place(Later(w, st0.flags, Some(before), x).value, []),
                        FollowPreset(w, depth, x, st))
  {
    var flags, r := st0.flags, FollowPreset(w, depth, x, st);
    var later := Later(w, flags, Some(before), x).value;
    hide WellFormed, Replays, Tracked, RefsOf, RunRefs, Overwritten, SetTo, IsPath, End, Ran, FollowPreset;
    forall p: seq<Ref>, a: Assign | IsPath(w, flags, Place(later, []), p) && p != []
      ensures Ran(w, flags, depth, a in End(w, flags, Place(later, []), p).assigns, p, a, r)
    {
      StartsInRefs(w, flags, later, p);
      if p[0] in before {
        PathMoves(w, flags, Place(later, []), Place(before, []), p);
        if Set(a.name, a.text) in st.trace { PresetTraceStays(w, depth, x, Set(a.name, a.text), st); }
        RanStays(w, flags, depth, a in End(w, flags, Place(later, []), p).assigns, p, a, st, r);
      } else {
        var entry := RefsOf(x, Contents(flags[x])).value;
        EntryFollowed(w, depth, before, x, st0, st);
        PathMoves(w, flags, Place(later, []), Place(entry, []), p);
        TrackedFacts(w, flags, Place(before, []), depth, 0, st);
        RunsRefs(w, flags, depth, entry, p, a, st);
      }
    }
  }

  lemma PresetTraceStays(w: World, depth: nat, x: string, prim: Prim, st: PState)
    requires prim in st.trace && IsRecursive(x)
    ensures prim in FollowPreset(w, depth, x, st).trace
  {
    hide FollowPreset;
    forall p: Prim, s: PState | prim in s.trace ensures prim in Apply(w, Flags.SetFlagsValue, p, s).trace {
      ApplyTraces(w, p, s);
    }
    FollowPresetKeeps(w, depth, x, st, (s: PState) => prim in s.trace);
  }

  /** A preset that nothing overwrites is followed with the value it had at the start. */
  lemma EntryFollowed(w: World, depth: nat, before: seq<Ref>, x: string, st0: PState, st: PState)
    requires WellFormed(st0.flags) && st0.trace == [] && IsRecursive(x) && x in st0.flags
    requires Stage(w, st0.flags, depth, before, st0, st) && st.stop == Running
    requires !Overwritten(w, st0.flags, before, x) && RefsOf(x, Contents(st0.flags[x])).Some?
    ensures FollowPreset(w, depth, x, st) ==
      RunRefs(w, depth, Flags.SetFlagsValue, RefsOf(x, Contents(st0.flags[x])).value, st)
  {
    hide WellFormed, Replays, Tracked, RefsOf, RunRefs, Overwritten, SetTo, FollowedAll;
    ValueAfter(w, st0, st, x);
    if t :| SetTo(w, st0.flags, x, st.trace, t) {
      SetOverwrites(w, st0.flags, depth, before, x, t, st);
    }
  }

  // ----- The whole command line -----

  lemma WholeRun(w: World, depth: nat, args: seq<string>, refs: seq<Ref>, st: PState)
    requires WellFormed(st.flags) && st.stop == Running && st.trace == [] && Presets(w, st.flags) == Some(refs)
    ensures var r := RunCommandLine(w, depth, args, st);
            var root := Start(w, st.flags, refs, args);
            && Tracked(w, st.flags, root, depth, 0, r)
            && (r.stop == Running ==> FollowedAll(w, st.flags, depth, root, r))
  {
    var flags := st.flags;
    var l1 := Later(w, flags, Some([]), FLAGFILE).value;
    var l2 := Later(w, flags, Some(l1), FROMENV).value;
    assert Later(w, flags, Some(l2), TRYFROMENV).value == refs;
    hide WellFormed, Stage, FollowPreset, Later;
    FirstStage(w, depth, st);
    var s1 := FollowPreset(w, depth, FLAGFILE, st);
    var s2 := FollowPreset(w, depth, FROMENV, s1);
    NextStage(w, depth, [], FLAGFILE, st, st);
    NextStage(w, depth, l1, FROMENV, st, s1);
    NextStage(w, depth, l2, TRYFROMENV, st, s2);
    ArgsStage(w, depth, args, refs, st, FollowPreset(w, depth, TRYFROMENV, s2));
  }

  lemma ArgsStage(w: World, depth: nat, args: seq<string>, refs: seq<Ref>, st0: PState, st: PState)
    requires WellFormed(st0.flags) && Stage(w, st0.flags, depth, refs, st0, st)
    ensures var r := if st.stop != Running then st else RunArgs(w, depth, args, st);
            var root := Start(w, st0.flags, refs, args);
            && Tracked(w, st0.flags, root, depth, 0, r)
            && (r.stop == Running ==> FollowedAll(w, st0.flags, depth, root, r))
  {
    var flags := st0.flags;
    var events := ScanArgs(Sig(flags), args).events;
    var part, root := Place(refs, []), Start(w, flags, refs, args);
    assert Includes(root, part);
    TrackedFacts(w, flags, part, depth, 0, st);
    KeptAccepts(w, flags, st, Assign("", ""));
    hide WellFormed, Tracked, Includes, Sig, ScanArgs, RunEvents, ArgvProofs.LegalEvents, Ran, IsPath, End, Kept;
    TrackedIncluded(w, flags, root, part, depth, 0, st);
    if st.stop == Running {
      ArgvProofs.ScanLegal(Sig(flags), args);
      EventsTracked(w, flags, root, depth, events, st);
      var r := RunArgs(w, depth, args, st);
      if r.stop == Running {
        forall p: seq<Ref>, a: Assign | IsPath(w, flags, root, p) && p != []
          ensures Ran(w, flags, depth, a in End(w, flags, root, p).assigns, p, a, r)
        {
          PathTail(w, flags, root, p);
          if p[0] in refs {
            PathMoves(w, flags, root, part, p);
            if Set(a.name, a.text) in st.trace { EventsTraceStays(w, depth, events, Set(a.name, a.text), st); }
            RanStays(w, flags, depth, a in End(w, flags, root, p).assigns, p, a, st, r);
          } else {
            PathMoves(w, flags, root, Place([], EventAssigns(events)), p);
            RunsEvents(w, flags, depth, events, p, a, st);
          }
        }
      }
    }
  }

  /** A parse of a command line, with whatever the recursive flags were set to before, comes to an end if
      and only if no file or environment value that it reaches leads back to itself. A preset counts unless
      the presets followed before it replace it. */
  lemma CommandLineTerminates(w: World, args: seq<string>, refs: seq<Ref>, st: PState)
    requires WellFormed(st.flags) && st.stop == Running && st.trace == []
    requires Presets(w, st.flags) == Some(refs) && Readable(w, st.flags, Start(w, st.flags, refs, args))
    ensures (exists depth: nat :: RunCommandLine(w, depth, args, st).stop != Overflowed)
       <==> !Cyclic(w, st.flags, Start(w, st.flags, refs, args))
    ensures !Cyclic(w, st.flags, Start(w, st.flags, refs, args)) ==>
      RunCommandLine(w, |Nodes(w)|, args, st).stop == Running
  {
    var root := Start(w, st.flags, refs, args);
    hide WellFormed, Readable, Cyclic, Start, Presets, RunCommandLine, Tracked, FollowedAll, Within;
    if Cyclic(w, st.flags, root) {
      forall depth: nat ensures RunCommandLine(w, depth, args, st).stop == Overflowed {
        var r := RunCommandLine(w, depth, args, st);
        WholeRun(w, depth, args, refs, st);
        TrackedStops(w, st.flags, root, depth, 0, r);
        if r.stop == Running { CycleNotFollowed(w, st.flags, depth, root, r); }
      }
    } else {
      WholeRun(w, |Nodes(w)|, args, refs, st);
      Termination.AcyclicWithin(w, st.flags, root);
      TrackedStops(w, st.flags, root, |Nodes(w)|, 0, RunCommandLine(w, |Nodes(w)|, args, st));
    }
  }

  lemma CycleNotFollowed(w: World, flags: FlagTable, depth: nat, root: Place, r: PState)
    requires Cyclic(w, flags, root)
    ensures !FollowedAll(w, flags, depth, root, r)
  {
    hide IsPath, Distinct, Ran, End;
    var p: seq<Ref> :| IsPath(w, flags, root, p) && !Distinct(p);
    var q := LongPath(w, flags, root, p, depth + 2);
    var front, a := q[..|q| - 1], Assign("", "");
    PathFront(w, flags, root, q, |q| - 1);
    Termination.LongRun(w, flags, root, q, depth, a in End(w, flags, root, front).assigns, a, r);
  }
}
