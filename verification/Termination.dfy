/** When the mutual recursion of --flagfile, --fromenv and --tryfromenv ends. */
module Termination {
  import Text
  import opened Flags
  import opened Names
  import opened Flagfile
  import opened Engine
  import ParseProofs
  import opened References
  import ParserSteps

  // ----- Depth does not matter once it suffices -----

  /** A run that does not exhaust the stack is the same with more stack, in every set mode. */
  lemma {:induction false} DeeperSame(w: World, depth: nat, mode: Mode, assigns: seq<Assign>, st: PState)
    requires RunAssigns(w, depth, mode, assigns, st).stop != Overflowed
    ensures RunAssigns(w, depth + 1, mode, assigns, st) == RunAssigns(w, depth, mode, assigns, st)
    decreases depth, 1, |assigns|
  {
    hide SetStep, StepRefs, Follow;
    if assigns != [] && st.stop == Running {
      var a := assigns[0];
      if a.name !in st.flags {
        DeeperSame(w, depth, mode, assigns[1..], st);
      } else {
        var st1, refs := SetStep(w, mode, a, st), StepRefs(w, mode, a, st);
        DeeperSameRefs(w, depth, mode, refs, st1);
        DeeperSame(w, depth, mode, assigns[1..], RunRefs(w, depth, mode, refs, st1));
      }
    }
  }

  lemma {:induction false} DeeperSameRefs(w: World, depth: nat, mode: Mode, refs: seq<Ref>, st: PState)
    requires RunRefs(w, depth, mode, refs, st).stop != Overflowed
    ensures RunRefs(w, depth + 1, mode, refs, st) == RunRefs(w, depth, mode, refs, st)
    decreases depth, 0, |refs|
  {
    hide Expand, Apply;
    if refs != [] && st.stop == Running {
      var st1 := Follow(w, depth, mode, refs[0], st);
      DeeperSameRefs(w, depth, mode, refs[1..], st1);
      HaltStops(w, mode, Overflowed, st);
      match Expand(w, Sig(st.flags), refs[0])
      case Nothing =>
      case Note(_) =>
      case Assigns(inner) => if depth > 0 { DeeperSame(w, depth - 1, mode, inner, st); }
    }
  }

  lemma HaltStops(w: World, mode: Mode, why: Stop, st: PState)
    ensures Apply(w, mode, Halt(why), st).stop == why
  {
  }

  /** Hence all sufficient depths agree: the result of a parse is well defined. */
  lemma {:induction false} DepthIrrelevant(
      w: World, d1: nat, d2: nat, mode: Mode, assigns: seq<Assign>, st: PState)
    requires d1 <= d2 && RunAssigns(w, d1, mode, assigns, st).stop != Overflowed
    ensures RunAssigns(w, d2, mode, assigns, st) == RunAssigns(w, d1, mode, assigns, st)
    decreases d2 - d1
  {
    if d1 < d2 {
      DeeperSame(w, d1, mode, assigns, st);
      DepthIrrelevant(w, d1 + 1, d2, mode, assigns, st);
    }
  }

  // ----- Exactly when a list of assignments comes to an end -----

  /** Without a cycle no path is longer than there are files and environment values. */
  lemma AcyclicWithin(w: World, flags: FlagTable, root: Place)
    requires !Cyclic(w, flags, root)
    ensures !Within(w, flags, root, |Nodes(w)|, Halt(Overflowed))
  {
    hide IsPath, Nodes, Leading;
    if p: seq<Ref> :| IsPath(w, flags, root, p) && |p| > |Nodes(w)| && Leading(w, flags, p) {
      LeadingInNodes(w, flags, p);
      Pigeonhole(p, Nodes(w));
    }
  }

  /** When nothing that can be reached leads back to itself, a stack as deep as there are files and
      environment values is enough. Nothing is asked of the texts; a bad list or a missing file may still
      end the program. */
  lemma AcyclicTerminates(w: World, assigns: seq<Assign>, st: PState)
    requires WellFormed(st.flags) && st.stop == Running
    requires !Cyclic(w, st.flags, Place([], assigns))
    ensures RunAssigns(w, |Nodes(w)|, SetFlagsValue, assigns, st).stop != Overflowed
    ensures Readable(w, st.flags, Place([], assigns)) ==>
      RunAssigns(w, |Nodes(w)|, SetFlagsValue, assigns, st).stop == Running
  {
    var root, room, k := Place([], assigns), |Nodes(w)|, |st.trace|;
    SelfKept(st);
    hide Cyclic, RunAssigns, IsPath, Tracked, Nodes, Kept, End, Leading, WellFormed, Readable, Within;
    TrackedStart(w, st.flags, root, room, st);
    EmptyPath(w, st.flags, root);
    RunTracked(w, st.flags, root, room, k, room, [], assigns, st);
    AcyclicWithin(w, st.flags, root);
    TrackedStops(w, st.flags, root, room, k, RunAssigns(w, room, SetFlagsValue, assigns, st));
  }

  /** A cycle that can be reached stops the program, whatever the stack; if every list and file can be
      read, by exhausting the stack. */
  lemma CycleOverflows(w: World, depth: nat, assigns: seq<Assign>, st: PState)
    requires WellFormed(st.flags) && st.stop == Running
    requires Cyclic(w, st.flags, Place([], assigns))
    ensures RunAssigns(w, depth, SetFlagsValue, assigns, st).stop != Running
    ensures Readable(w, st.flags, Place([], assigns)) ==>
      RunAssigns(w, depth, SetFlagsValue, assigns, st).stop == Overflowed
  {
    var root := Place([], assigns);
    assert Kept(st.flags, st);
    hide IsPath, Distinct, RunAssigns, Kept, Ran, Readable;
    var p: seq<Ref> :| IsPath(w, st.flags, root, p) && !Distinct(p);
    var q := LongPath(w, st.flags, root, p, depth + 2);
    if RunAssigns(w, depth, SetFlagsValue, assigns, st).stop == Running {
      var front := q[..|q| - 1];
      PathFront(w, st.flags, root, q, |q| - 1);
      RunsAssigns(w, st.flags, depth, assigns, front, Assign("", ""), st);
      LongRun(w, st.flags, root, q, depth, Assign("", "") in End(w, st.flags, root, front).assigns, Assign("", ""),
              RunAssigns(w, depth, SetFlagsValue, assigns, st));
    }
    if Readable(w, st.flags, root) { ReadableNoExit(w, depth, assigns, st); }
  }

  /** Every reference of a path but the last leads on. */
  lemma LongRun(w: World, flags: FlagTable, root: Place, q: seq<Ref>, depth: nat, there: bool, a: Assign, r: PState)
    requires IsPath(w, flags, root, q) && |q| >= depth + 2
    ensures !Ran(w, flags, depth, there, q[..|q| - 1], a, r)
  {
    hide Sig, RefsOf, IsAccepted, IsPath, Expand;
    var n := |q| - 1;
    LeadsOn(w, flags, root, q, n - 1);
    assert q[..n][n - 1] == q[n - 1];
  }

  lemma LeadsOn(w: World, flags: FlagTable, root: Place, q: seq<Ref>, i: nat)
    requires IsPath(w, flags, root, q) && i + 1 < |q|
    ensures Expand(w, Sig(flags), q[i]).Assigns?
  {
    hide Sig, Expand, Holds;
    assert Offers(w, flags, At(w, flags, root, q, i + 1), q[i + 1]);
    BehindExpands(w, flags, q[i]);
  }

  lemma ReadableNoExit(w: World, depth: nat, assigns: seq<Assign>, st: PState)
    requires WellFormed(st.flags) && st.stop == Running && Readable(w, st.flags, Place([], assigns))
    ensures RunAssigns(w, depth, SetFlagsValue, assigns, st).stop != Exited
  {
    var root, k := Place([], assigns), |st.trace|;
    SelfKept(st);
    hide RunAssigns, IsPath, Tracked, Readable, Kept, End, Leading, WellFormed, Within;
    TrackedStart(w, st.flags, root, depth, st);
    EmptyPath(w, st.flags, root);
    RunTracked(w, st.flags, root, depth, k, depth, [], assigns, st);
    TrackedStops(w, st.flags, root, depth, k, RunAssigns(w, depth, SetFlagsValue, assigns, st));
  }

  /** The mutual recursion comes to an end if and only if no file or environment value that can be
      reached from the assignments leads back to itself. */
  lemma TerminatesExactly(w: World, assigns: seq<Assign>, st: PState)
    requires WellFormed(st.flags) && st.stop == Running && Readable(w, st.flags, Place([], assigns))
    ensures (exists depth: nat :: RunAssigns(w, depth, SetFlagsValue, assigns, st).stop != Overflowed)
       <==> !Cyclic(w, st.flags, Place([], assigns))
  {
    hide RunAssigns, Readable, Cyclic, WellFormed;
    if Cyclic(w, st.flags, Place([], assigns)) {
      forall depth: nat ensures RunAssigns(w, depth, SetFlagsValue, assigns, st).stop == Overflowed {
        CycleOverflows(w, depth, assigns, st);
      }
    } else {
      AcyclicTerminates(w, assigns, st);
    }
  }

  // ----- What the recursion guard does not cover -----

  /** The environment variable FLAGS_fromenv listing fromenv, or FLAGS_tryfromenv listing tryfromenv, at
      any place: the guard saves the program exactly when nothing else is listed with it. Otherwise the
      recursion never ends; only a bad list or a missing file can end the program instead. */
  lemma GuardIsExact(w: World, depth: nat, x: string, v: string, st: PState)
    requires WellFormed(st.flags) && st.stop == Running && (x == FROMENV || x == TRYFROMENV)
    requires ParseProofs.Accepts(w, x, st.flags[x], v)
    requires "FLAGS_" + x in w.environ && w.environ["FLAGS_" + x] == v
    requires FlagList(v).Some? && x in FlagList(v).value
    ensures var r := RunAssigns(w, depth, SetFlagsValue, [Assign(x, v)], st);
            && (r.stop == Running <==> v == x)
            && (v != x && Readable(w, st.flags, Place([], [Assign(x, v)])) ==> r.stop == Overflowed)
  {
    hide FlagList, Expand, IsAccepted, RunAssigns, WellFormed, ParseProofs.Accepts, Sig, Holds, Readable, Cyclic;
    RecursiveKnown(st.flags, x);
    WordLists(v);
    GuardExpands(w, st.flags, x, v);
    ListHolds(w, st.flags, x, v);
    if v == x {
      GuardSaves(w, depth, x, st);
    } else {
      SelfCycle(w, st.flags, Assign(x, v), EnvRef(x, x == FROMENV));
      CycleOverflows(w, depth, [Assign(x, v)], st);
    }
  }

  lemma WordLists(v: string)
    ensures FlagList(FROMENV) == Text.Some([FROMENV]) && FlagList(TRYFROMENV) == Text.Some([TRYFROMENV])
  {
    FlagListRoundTrip([FROMENV]);
    FlagListRoundTrip([TRYFROMENV]);
  }

  lemma SelfCycle(w: World, flags: FlagTable, a: Assign, s: Ref)
    requires Holds(w, flags, a, s) && Expand(w, Sig(flags), s) == Assigns([a])
    ensures Cyclic(w, flags, Place([], [a]))
  {
    hide Holds, Expand, Sig;
    var root, p := Place([], [a]), [s, s];
    BehindExpands(w, flags, s);
    assert a in root.assigns;
    assert p[0] == p[1] == s && At(w, flags, root, p, 1) == root;
    assert IsPath(w, flags, root, p);
  }

  lemma ListHolds(w: World, flags: FlagTable, x: string, v: string)
    requires (x == FROMENV || x == TRYFROMENV) && x in flags && ParseProofs.Accepts(w, x, flags[x], v)
    requires FlagList(v).Some? && x in FlagList(v).value
    ensures Holds(w, flags, Assign(x, v), EnvRef(x, x == FROMENV))
  {
    hide FlagList, ParseProofs.Accepts;
    var i :| 0 <= i < |FlagList(v).value| && FlagList(v).value[i] == x;
    assert RefsOf(x, v).value[i] == EnvRef(x, x == FROMENV);
  }

  lemma GuardExpands(w: World, flags: FlagTable, x: string, v: string)
    requires "FLAGS_" + x in w.environ && w.environ["FLAGS_" + x] == v && x in flags
    ensures Expand(w, Sig(flags), EnvRef(x, x == FROMENV)) ==
      if v == FROMENV || v == TRYFROMENV then Note(Fail(x, EnvRecursion(v))) else Assigns([Assign(x, v)])
  {
    assert FindFlag(Sig(flags), x) == Text.Some(x);
  }

  lemma GuardSaves(w: World, depth: nat, x: string, st: PState)
    requires WellFormed(st.flags) && st.stop == Running && (x == FROMENV || x == TRYFROMENV)
    requires x in st.flags && ParseProofs.Accepts(w, x, st.flags[x], x) && FlagList(x) == Text.Some([x])
    requires Expand(w, Sig(st.flags), EnvRef(x, x == FROMENV)) == Note(Fail(x, EnvRecursion(x)))
    ensures RunAssigns(w, depth, SetFlagsValue, [Assign(x, x)], st).stop == Running
  {
    hide WellFormed, Expand, SetStep, StepRefs, FlagList, Kept, Sig, ParseProofs.Accepts, Apply, Follow;
    SelfKept(st);
    SetEffect(w, st.flags, Assign(x, x), st);
    var done := Apply(w, SetFlagsValue, Set(x, x), st);
    ApplyKept(w, st.flags, Set(x, x), st);
    KeptAccepts(w, st.flags, done, Assign(x, x));
    ApplyTraces(w, Set(x, x), st);
    var s := EnvRef(x, x == FROMENV);
    assert RefsOf(x, x).value == [s];
    assert IsAccepted(w, st.flags, Assign(x, x));
    assert StepRefs(w, SetFlagsValue, Assign(x, x), st) == [s];
    assert [Assign(x, x)][1..] == [] && [s][1..] == [];
    assert Sig(done.flags) == Sig(st.flags);
    NoteFollowed(w, depth, s, done);
    ApplyTraces(w, Fail(x, EnvRecursion(x)), done);
    ParserSteps.StoppedRefs(w, depth, SetFlagsValue, []);
    ParserSteps.StoppedAssigns(w, depth, SetFlagsValue, []);
    assert RunRefs(w, depth, SetFlagsValue, [s], done) == Follow(w, depth, SetFlagsValue, s, done);
  }

  lemma NoteFollowed(w: World, depth: nat, s: Ref, st: PState)
    requires Expand(w, Sig(st.flags), s).Note?
    ensures Follow(w, depth, SetFlagsValue, s, st) == Apply(w, SetFlagsValue, Expand(w, Sig(st.flags), s).prim, st)
  {
    hide Expand, Apply;
  }
}
