/** A second parse of the same command line, with presets that set none of the recursive flags. */
module ReparsePlain {
  import Text
  import Values
  import opened Flags
  import Names
  import Flagfile
  import opened Engine
  import opened ParseProofs
  import opened Argv
  import ArgvProofs
  import opened References
  import opened CommandLine
  import opened CommandLineEnds
  import opened Reparse

  // ----- What a caller checks -----

  /** Nothing that the recursive flags refer to sets a recursive flag. */
  ghost predicate PlainPresets(w: World, flags: FlagTable) {
    forall x | IsRecursive(x) && x in flags && RefsOf(x, Contents(flags[x])).Some? ::
      PlainList(w, flags, RefsOf(x, Contents(flags[x])).value)
  }

  ghost predicate PlainList(w: World, flags: FlagTable, refs: seq<Ref>) {
    forall a | Reachable(w, flags, Place(refs, []), a) && IsAccepted(w, flags, a) :: !IsRecursive(a.name)
  }

  /** A recursive flag has the value it had before, or it was empty and the arguments assigned it. */
  predicate KeptOrAssigned(w: World, x: string, f: FlagState, g: FlagState, args: seq<Prim>) {
    g.current == f.current || (Contents(f) == "" && SetsWell(w, x, f, args))
  }

  // ----- The presets of the first parse -----

  ghost predicate NoneSet(w: World, flags: FlagTable, trace: seq<Prim>) {
    forall x, t | IsRecursive(x) :: !SetTo(w, flags, x, trace, t)
  }

  lemma PlainPass(w: World, depth: nat, flags: FlagTable, x: string, u: PState)
    requires WellFormed(flags) && PlainPresets(w, flags) && IsRecursive(x) && Kept(flags, u)
    requires Replays(w, SetFlagsValue, NewParse(flags), u) && NoneSet(w, flags, u.trace)
    ensures var u2 := FollowPreset(w, depth, x, u);
            && Replays(w, SetFlagsValue, NewParse(flags), u2) && Kept(flags, u2) && NoneSet(w, flags, u2.trace)
  {
    RecursiveKnown(flags, x);
    hide Replays, WellFormed, Kept, RefsOf, RunList, FollowPreset, SetTo, PlainList, Contents, PlainPresets;
    PassReplays(w, depth, flags, flags, x, u);
    if u.stop != Running {
      StoppedPreset(w, depth, x, u);
    } else {
      ValueAfter(w, NewParse(flags), u, x);
      PresetList(w, depth, x, u);
      PassGrows(w, depth, x, u);
      PlainFollow(w, depth, flags, x, u);
    }
  }

  lemma PlainFollow(w: World, depth: nat, flags: FlagTable, x: string, u: PState)
    requires PlainPresets(w, flags) && IsRecursive(x) && x in flags && Kept(flags, u) && u.stop == Running
    requires NoneSet(w, flags, u.trace)
    requires u.trace <= RunList(w, depth, SetFlagsValue, x, Contents(flags[x]), u).trace
    ensures NoneSet(w, flags, RunList(w, depth, SetFlagsValue, x, Contents(flags[x]), u).trace)
  {
    hide Kept, RefsOf, RunRefs, Tracked, IsPath, End, Leading, PlainList, Contents, Apply, NoneSet;
    var refs := RefsOf(x, Contents(flags[x]));
    if refs.None? {
      ApplyTraces(w, Halt(Exited), u);
      NoneSetHalt(w, flags, u);
    } else {
      var root := Place(refs.value, []);
      var u2 := RunRefs(w, depth, SetFlagsValue, refs.value, u);
      TrackedStart(w, flags, root, depth, u);
      EmptyPath(w, flags, root);
      assert forall s | s in refs.value :: Offers(w, flags, root, s);
      RefsTracked(w, flags, root, depth, |u.trace|, depth, [], refs.value, u);
      GainedNone(w, flags, refs.value, depth, u, u2);
    }
  }

  lemma PassReplays(w: World, depth: nat, flags: FlagTable, start: FlagTable, x: string, u: PState)
    requires Replays(w, SetFlagsValue, NewParse(start), u) && Kept(flags, u) && IsRecursive(x)
    ensures var u2 := FollowPreset(w, depth, x, u);
            Replays(w, SetFlagsValue, NewParse(start), u2) && Kept(flags, u2)
  {
    hide Replays, Kept, FollowPreset;
    ReplaysStable(w, SetFlagsValue, NewParse(start));
    FollowPresetKeeps(w, depth, x, u, s => Replays(w, SetFlagsValue, NewParse(start), s));
    forall p: Prim, s: PState | Kept(flags, s) && Legal(p, s) ensures Kept(flags, Apply(w, SetFlagsValue, p, s)) {
      ApplyKept(w, flags, p, s);
    }
    FollowPresetKeeps(w, depth, x, u, s => Kept(flags, s));
  }

  lemma NoneSetHalt(w: World, flags: FlagTable, u: PState)
    requires NoneSet(w, flags, u.trace)
    ensures NoneSet(w, flags, u.trace + [Halt(Exited)])
  {
    hide IsAccepted;
    forall x, t | IsRecursive(x) ensures !SetTo(w, flags, x, u.trace + [Halt(Exited)], t) {
      assert !SetTo(w, flags, x, u.trace, t);
    }
  }

  /** What was done before stays in the trace. */
  lemma PassGrows(w: World, depth: nat, x: string, u: PState)
    requires IsRecursive(x)
    ensures u.trace <= FollowPreset(w, depth, x, u).trace
  {
    hide FollowPreset;
    forall p: Prim, s: PState | u.trace <= s.trace ensures u.trace <= Apply(w, SetFlagsValue, p, s).trace {
      ApplyTraces(w, p, s);
    }
    FollowPresetKeeps(w, depth, x, u, (s: PState) => u.trace <= s.trace);
  }

  /** What a tracked run adds to the trace can be reached. */
  lemma GainedReachable(
      w: World, flags: FlagTable, root: Place, depth: nat, u: PState, u2: PState, n: string, t: string)
    requires Tracked(w, flags, root, depth, |u.trace|, u2) && u.trace <= u2.trace && Set(n, t) in u2.trace
    ensures Set(n, t) in u.trace || Reachable(w, flags, root, Flagfile.Assign(n, t))
  {
    hide Reachable, Kept;
    var i :| 0 <= i < |u2.trace| && u2.trace[i] == Set(n, t);
    if i < |u.trace| {
      assert u.trace[i] == Set(n, t);
    } else {
      assert Within(w, flags, root, depth, u2.trace[i]);
    }
  }

  lemma GainedNone(w: World, flags: FlagTable, refs: seq<Ref>, depth: nat, u: PState, u2: PState)
    requires Tracked(w, flags, Place(refs, []), depth, |u.trace|, u2) && u.trace <= u2.trace
    requires NoneSet(w, flags, u.trace) && PlainList(w, flags, refs)
    ensures NoneSet(w, flags, u2.trace)
  {
    hide IsAccepted, Reachable, Tracked;
    forall x, t | IsRecursive(x) ensures !SetTo(w, flags, x, u2.trace, t) {
      assert !SetTo(w, flags, x, u.trace, t);
      if Set(x, t) in u2.trace { GainedReachable(w, flags, Place(refs, []), depth, u, u2, x, t); }
    }
  }

  // ----- Runs that matter alike -----

  /** Both runs assign the flag or neither does, and the last accepted assignment is the same. */
  ghost predicate SameLast(w: World, n: string, f: FlagState, a: seq<Prim>, b: seq<Prim>) {
    && SetsWell(w, n, f, a) == SetsWell(w, n, f, b)
    && (SetsWell(w, n, f, a) ==> LastAccepted(w, n, f, a) == LastAccepted(w, n, f, b))
  }

  /** The runs are the same for every flag that `args` does not assign. */
  ghost predicate Alike(w: World, flags: FlagTable, args: seq<Prim>, a: seq<Prim>, b: seq<Prim>) {
    forall n | n in flags && !SetsWell(w, n, flags[n], args) :: SameLast(w, n, flags[n], a, b)
  }

  /** What is accepted here `args` does too. */
  ghost predicate Quiet(w: World, flags: FlagTable, args: seq<Prim>, more: seq<Prim>) {
    forall n, t | Set(n, t) in more && IsAccepted(w, flags, Flagfile.Assign(n, t)) :: Set(n, t) in args
  }

  lemma SetsWellConcat(w: World, n: string, f: FlagState, a: seq<Prim>, b: seq<Prim>)
    ensures SetsWell(w, n, f, a + b) <==> SetsWell(w, n, f, a) || SetsWell(w, n, f, b)
  {
    hide SetsWell, Accepts;
    SetsWellIn(w, n, f, a);
    SetsWellIn(w, n, f, b);
    SetsWellIn(w, n, f, a + b);
    assert forall t :: Set(n, t) in a + b <==> Set(n, t) in a || Set(n, t) in b;
  }

  lemma AlikeSame(w: World, flags: FlagTable, args: seq<Prim>, a: seq<Prim>, b: seq<Prim>, more: seq<Prim>)
    requires Alike(w, flags, args, a, b)
    ensures Alike(w, flags, args, a + more, b + more)
  {
    hide SetsWell, LastAccepted;
    forall n | n in flags && !SetsWell(w, n, flags[n], args)
      ensures SameLast(w, n, flags[n], a + more, b + more)
    {
      var f := flags[n];
      assert SameLast(w, n, f, a, b);
      SetsWellConcat(w, n, f, a, more);
      SetsWellConcat(w, n, f, b, more);
      LastOfTwo(w, n, f, a, more);
      LastOfTwo(w, n, f, b, more);
    }
  }

  lemma QuietSets(w: World, flags: FlagTable, args: seq<Prim>, more: seq<Prim>, n: string)
    requires Quiet(w, flags, args, more) && n in flags && !SetsWell(w, n, flags[n], args)
    ensures !SetsWell(w, n, flags[n], more)
  {
    hide SetsWell, Accepts;
    SetsWellIn(w, n, flags[n], args);
    SetsWellIn(w, n, flags[n], more);
    assert forall t :: IsAccepted(w, flags, Flagfile.Assign(n, t)) == Accepts(w, n, flags[n], t);
  }

  lemma AlikeQuiet(
      w: World, flags: FlagTable, args: seq<Prim>, a: seq<Prim>, b: seq<Prim>, c: seq<Prim>, d: seq<Prim>)
    requires Alike(w, flags, args, a, b) && Quiet(w, flags, args, c) && Quiet(w, flags, args, d)
    ensures Alike(w, flags, args, a + c, b + d)
  {
    hide SetsWell, LastAccepted, Quiet;
    forall n | n in flags && !SetsWell(w, n, flags[n], args)
      ensures SameLast(w, n, flags[n], a + c, b + d)
    {
      var f := flags[n];
      assert SameLast(w, n, f, a, b);
      QuietSets(w, flags, args, c, n);
      QuietSets(w, flags, args, d, n);
      SetsWellConcat(w, n, f, a, c);
      SetsWellConcat(w, n, f, b, d);
      LastOfTwo(w, n, f, a, c);
      LastOfTwo(w, n, f, b, d);
    }
  }

  // ----- One preset in both parses -----

  /** The list of `x` holds nothing, or `args` followed it. */
  ghost predicate Covered(w: World, flags: FlagTable, x: string, args: seq<Prim>, text: string) {
    text == "" || SetTo(w, flags, x, args, text)
  }

  /** Following a list that the arguments `q` followed adds nothing that they did not do. */
  lemma CoveredPass(w: World, depth: nat, args: seq<string>, flags: FlagTable, x: string, u: PState)
    requires WellFormed(flags) && RunArgs(w, depth, args, NewParse(flags)).stop == Running
    requires IsRecursive(x) && Kept(flags, u) && u.stop == Running && x in u.flags
    requires Covered(w, flags, x, RunArgs(w, depth, args, NewParse(flags)).trace, Contents(u.flags[x]))
    ensures var u2 := FollowPreset(w, depth, x, u);
            && u2.stop == Running && u.trace <= u2.trace
            && Quiet(w, flags, RunArgs(w, depth, args, NewParse(flags)).trace, u2.trace[|u.trace|..])
  {
    var q, root := RunArgs(w, depth, args, NewParse(flags)), Start(w, flags, [], args);
    var text, u2 := Contents(u.flags[x]), FollowPreset(w, depth, x, u);
    hide RunArgs, Kept, Tracked, EveryRan, Replays, WellFormed, Reachable, IsAccepted, FollowPreset, Contents, Within;
    PassGrows(w, depth, x, u);
    if text == "" {
      EmptyPreset(w, depth, x, u);
      assert u2.trace[|u.trace|..] == [];
    } else {
      FirstFacts(w, depth, args, flags);
      SetReachable(w, flags, root, depth, x, text, q);
      TrackedStart(w, flags, root, depth, u);
      PresetList(w, depth, x, u);
      ReachedList(w, flags, root, depth, |u.trace|, x, text, u);
      TrackedFacts(w, flags, root, depth, |u.trace|, u2);
      RanIsSafe(w, flags, depth, root, q);
      GainedQuiet(w, flags, root, depth, u, u2, q);
    }
  }

  lemma GainedQuiet(w: World, flags: FlagTable, root: Place, depth: nat, u: PState, u2: PState, q: PState)
    requires Tracked(w, flags, root, depth, |u.trace|, u2) && u.trace <= u2.trace
    requires EveryRan(w, flags, depth, root, q)
    ensures Quiet(w, flags, q.trace, u2.trace[|u.trace|..])
  {
    hide EveryRan, Kept, Reachable, IsAccepted;
    var more := u2.trace[|u.trace|..];
    forall n, t | Set(n, t) in more && IsAccepted(w, flags, Flagfile.Assign(n, t)) ensures Set(n, t) in q.trace {
      var i :| 0 <= i < |more| && more[i] == Set(n, t);
      assert u2.trace[|u.trace| + i] == Set(n, t);
      assert Within(w, flags, root, depth, u2.trace[|u.trace| + i]);
      ReachableRan(w, flags, depth, root, Flagfile.Assign(n, t), q);
    }
  }

  /** The presets of both parses up to some point; `q` is the arguments alone. */
  ghost predicate Matched(w: World, flags: FlagTable, q: PState, r: PState, u: PState, v: PState) {
    && Replays(w, SetFlagsValue, NewParse(flags), u) && Replays(w, SetFlagsValue, NewParse(r.flags), v)
    && Kept(flags, u) && Kept(flags, v) && u.stop == Running && v.stop == Running
    && NoneSet(w, flags, u.trace)
    && (forall x, t | IsRecursive(x) && SetTo(w, flags, x, v.trace, t) :: Set(x, t) in q.trace)
    && Alike(w, flags, q.trace, u.trace, v.trace)
  }

  /** A recursive flag that the arguments assign ends with a list that they followed. */
  lemma AssignedValue(w: World, flags: FlagTable, x: string, s: PState, r: PState, args: seq<Prim>)
    requires WellFormed(flags) && WellFormed(s.flags) && IsRecursive(x) && x in flags && x in s.flags
    requires SameShape(flags[x], s.flags[x]) && Replays(w, SetFlagsValue, s, r) && r.trace[|s.trace|..] == args
    requires SetsWell(w, x, flags[x], args)
    ensures x in r.flags && SetTo(w, flags, x, args, Contents(r.flags[x]))
  {
    RecursiveKnown(flags, x);
    WellTypedAt(s.flags, x);
    hide WellFormed, ApplyAll, LastAccepted, SetsWell, Sets, SameShape, Accepts;
    FlagAfter(w, x, args, s);
    SetsWellShape(w, x, flags[x], s.flags[x], args);
    SetsWellIn(w, x, flags[x], args);
    var t :| Set(x, t) in args && Accepts(w, x, flags[x], t);
    assert SetTo(w, flags, x, args, t);
    LastFrom(w, flags, x, args);
  }

  /** What is known of the recursive flag `x` once the first parse is over. */
  ghost predicate Settled(w: World, flags: FlagTable, x: string, q: PState, r: PState)
    requires x in flags && x in r.flags
  {
    if SetsWell(w, x, flags[x], q.trace)
    then Covered(w, flags, x, q.trace, Contents(flags[x])) && Covered(w, flags, x, q.trace, Contents(r.flags[x]))
    else Contents(flags[x]) == Contents(r.flags[x])
  }

  lemma SettledNow(w: World, flags: FlagTable, x: string, s: PState, q: PState, r: PState)
    requires WellFormed(flags) && WellFormed(s.flags) && IsRecursive(x) && x in flags && x in s.flags && x in r.flags
    requires SameShape(flags[x], s.flags[x]) && Replays(w, SetFlagsValue, s, r) && r.trace[|s.trace|..] == q.trace
    requires KeptOrAssigned(w, x, flags[x], r.flags[x], q.trace)
    ensures Settled(w, flags, x, q, r)
  {
    hide WellFormed, Replays, SetsWell, SameShape;
    if SetsWell(w, x, flags[x], q.trace) {
      AssignedValue(w, flags, x, s, r, q.trace);
    }
  }

  /** The list that each parse follows for `x`: the same one, or two that the arguments follow as well. */
  lemma PresetValues(w: World, flags: FlagTable, x: string, q: PState, r: PState, u: PState, v: PState)
    requires WellFormed(flags) && WellFormed(r.flags) && IsRecursive(x) && x in flags && x in r.flags
    requires Kept(flags, r) && Settled(w, flags, x, q, r) && Matched(w, flags, q, r, u, v)
    ensures x in u.flags && x in v.flags
    ensures var c, d := Contents(u.flags[x]), Contents(v.flags[x]);
            || c == d
            || (Covered(w, flags, x, q.trace, c) && Covered(w, flags, x, q.trace, d))
  {
    hide WellFormed, Replays, Kept, SetsWell, Alike, Contents;
    ValueAfter(w, NewParse(flags), u, x);
    ValueAfter(w, NewParse(r.flags), v, x);
    KeptSetTo(w, flags, r, x, v.trace);
    assert forall t :: !SetTo(w, flags, x, u.trace, t);
    if t :| SetTo(w, flags, x, v.trace, t) {
      AssignedSetsWell(w, flags, x, q.trace, t);
    }
  }

  lemma KeptSetTo(w: World, flags: FlagTable, r: PState, x: string, trace: seq<Prim>)
    requires Kept(flags, r)
    ensures forall t :: SetTo(w, r.flags, x, trace, t) <==> SetTo(w, flags, x, trace, t)
  {
    hide Kept, IsAccepted;
    forall t ensures SetTo(w, r.flags, x, trace, t) <==> SetTo(w, flags, x, trace, t) {
      KeptAccepts(w, flags, r, Flagfile.Assign(x, t));
    }
  }

  lemma AssignedSetsWell(w: World, flags: FlagTable, x: string, args: seq<Prim>, t: string)
    requires Set(x, t) in args && IsAccepted(w, flags, Flagfile.Assign(x, t))
    ensures SetsWell(w, x, flags[x], args)
  {
    hide Accepts, SetsWell;
    SetsWellIn(w, x, flags[x], args);
  }

  lemma MatchedPass(
      w: World, depth: nat, args: seq<string>, flags: FlagTable, x: string, r: PState, u: PState, v: PState)
    requires WellFormed(flags) && WellFormed(r.flags) && IsRecursive(x) && x in flags && x in r.flags
    requires PlainPresets(w, flags) && RunArgs(w, depth, args, NewParse(flags)).stop == Running
    requires var q := RunArgs(w, depth, args, NewParse(flags));
             Kept(flags, r) && Settled(w, flags, x, q, r) && Matched(w, flags, q, r, u, v)
    requires FollowPreset(w, depth, x, u).stop == Running
    ensures Matched(w, flags, RunArgs(w, depth, args, NewParse(flags)), r,
                    FollowPreset(w, depth, x, u), FollowPreset(w, depth, x, v))
  {
    var q := RunArgs(w, depth, args, NewParse(flags));
    var u2, v2 := FollowPreset(w, depth, x, u), FollowPreset(w, depth, x, v);
    hide WellFormed, Replays, Kept, RunArgs, FollowPreset, Covered, Contents, Alike, Quiet, PlainPresets, SetTo,
      NoneSet, Settled;
    PresetValues(w, flags, x, q, r, u, v);
    PlainPass(w, depth, flags, x, u);
    PassReplays(w, depth, flags, r.flags, x, v);
    PassGrows(w, depth, x, u);
    PassGrows(w, depth, x, v);
    var c, d := u2.trace[|u.trace|..], v2.trace[|v.trace|..];
    assert u2.trace == u.trace + c && v2.trace == v.trace + d;
    if Contents(u.flags[x]) == Contents(v.flags[x]) {
      SameList(w, depth, flags, x, u, v);
      AlikeSame(w, flags, q.trace, u.trace, v.trace, c);
      SameSets(w, flags, q.trace, u.trace, v.trace, c);
    } else {
      CoveredPass(w, depth, args, flags, x, u);
      CoveredPass(w, depth, args, flags, x, v);
      AlikeQuiet(w, flags, q.trace, u.trace, v.trace, c, d);
      QuietMore(w, flags, q.trace, v.trace, d);
    }
  }

  lemma SameList(w: World, depth: nat, flags: FlagTable, x: string, u: PState, v: PState)
    requires Kept(flags, u) && Kept(flags, v) && u.stop == v.stop && x in u.flags && x in v.flags
    requires Contents(u.flags[x]) == Contents(v.flags[x])
    ensures var u2, v2 := FollowPreset(w, depth, x, u), FollowPreset(w, depth, x, v);
            && |u.trace| <= |u2.trace| && |v.trace| <= |v2.trace| && u2.stop == v2.stop
            && u2.trace[|u.trace|..] == v2.trace[|v.trace|..]
  {
    KeptTwo(flags, u, v);
    hide WellFormed, FollowPreset, Contents, SameShapes;
    assert u.trace[|u.trace|..] == v.trace[|v.trace|..] == [];
    assert InStep(u.trace, v.trace, u, v);
    PresetInStep(w, depth, x, u.trace, v.trace, u, v);
  }

  lemma KeptTwo(flags: FlagTable, u: PState, v: PState)
    requires Kept(flags, u) && Kept(flags, v)
    ensures SameShapes(u.flags, v.flags)
  {
    hide WellFormed;
  }

  /** The first parse sets no recursive flag here, so the second one does not either. */
  lemma SameSets(
      w: World, flags: FlagTable, args: seq<Prim>, a: seq<Prim>, b: seq<Prim>, more: seq<Prim>)
    requires NoneSet(w, flags, a + more)
    requires forall x, t | IsRecursive(x) && SetTo(w, flags, x, b, t) :: Set(x, t) in args
    ensures forall x, t | IsRecursive(x) && SetTo(w, flags, x, b + more, t) :: Set(x, t) in args
  {
    hide IsAccepted;
    forall x, t | IsRecursive(x) && SetTo(w, flags, x, b + more, t) ensures Set(x, t) in args {
      assert !SetTo(w, flags, x, a + more, t);
      assert Set(x, t) in b;
      assert SetTo(w, flags, x, b, t);
    }
  }

  lemma QuietMore(w: World, flags: FlagTable, args: seq<Prim>, b: seq<Prim>, more: seq<Prim>)
    requires Quiet(w, flags, args, more)
    requires forall x, t | IsRecursive(x) && SetTo(w, flags, x, b, t) :: Set(x, t) in args
    ensures forall x, t | IsRecursive(x) && SetTo(w, flags, x, b + more, t) :: Set(x, t) in args
  {
    hide IsAccepted;
    forall x, t | IsRecursive(x) && SetTo(w, flags, x, b + more, t) ensures Set(x, t) in args {
      if Set(x, t) in b { assert SetTo(w, flags, x, b, t); }
    }
  }

  // ----- The whole second parse -----

  lemma MatchedStart(w: World, flags: FlagTable, q: PState, r: PState)
    requires Kept(flags, r) && WellFormed(flags)
    ensures Matched(w, flags, q, r, NewParse(flags), NewParse(r.flags))
  {
    hide WellFormed, Kept;
    SelfKept(NewParse(flags));
    KeptAnew(flags, r);
    ArgvProofs.ReplaysSelf(w, SetFlagsValue, NewParse(flags));
    ArgvProofs.ReplaysSelf(w, SetFlagsValue, NewParse(r.flags));
  }

  /** Presets that set no recursive flag, and recursive flags that each kept their value or were empty before
      and assigned by the arguments: then a second parse changes no value. */
  lemma AgainWithPlainPresets(w: World, depth: nat, args: seq<string>, again: seq<string>, flags: FlagTable)
    requires WellFormed(flags) && PlainPresets(w, flags)
    requires ScanArgs(Sig(flags), again).events == ScanArgs(Sig(flags), args).events
    requires RunCommandLine(w, depth, args, NewParse(flags)).stop == Running
    requires var r := RunCommandLine(w, depth, args, NewParse(flags));
             forall x | IsRecursive(x) && x in flags && x in r.flags ::
               KeptOrAssigned(w, x, flags[x], r.flags[x], ArgsTrace(w, depth, args, flags))
    ensures var r := RunCommandLine(w, depth, args, NewParse(flags));
            var r2 := RunCommandLine(w, depth, again, NewParse(r.flags));
            r2.stop == Running && SameValues(r.flags, r2.flags)
  {
    var s0 := NewParse(flags);
    var r, t0 := RunCommandLine(w, depth, args, s0), NewParse(RunCommandLine(w, depth, args, s0).flags);
    var s3, t3 := FollowPresets(w, depth, s0), FollowPresets(w, depth, t0);
    var q := RunArgs(w, depth, args, s0);
    hide WellFormed, RunArgs, FollowPreset, ScanArgs, Sig, Kept, Matched, PlainPresets, KeptOrAssigned, Settled;
    FirstParseFacts(w, depth, args, flags);
    MatchedStart(w, flags, q, r);
    var s1, t1 := FollowPreset(w, depth, FLAGFILE, s0), FollowPreset(w, depth, FLAGFILE, t0);
    var s2, t2 := FollowPreset(w, depth, FROMENV, s1), FollowPreset(w, depth, FROMENV, t1);
    PassStops(w, depth, s0);
    MatchedPass(w, depth, args, flags, FLAGFILE, r, s0, t0);
    MatchedPass(w, depth, args, flags, FROMENV, r, s1, t1);
    MatchedPass(w, depth, args, flags, TRYFROMENV, r, s2, t2);
    MatchedRuns(w, flags, q, r, s3, t3);
    forall n | n in r.flags
      ensures n in flags && RunCommandLine(w, depth, again, t0).stop == Running
      ensures var r2 := RunCommandLine(w, depth, again, t0); n in r2.flags && r2.flags[n].current == r.flags[n].current
    {
      KeptKeys(flags, r);
      AgainExactly(w, depth, args, again, flags, n);
      if !SetsWell(w, n, flags[n], q.trace) {
        ShapesKeys(flags, s3.flags);
        ValueMatched(w, flags, n, q, r, s3, t3);
      }
    }
    SecondKeys(w, depth, again, flags, r);
  }

  /** The first parse in its parts: `q` is what its arguments do on their own. */
  lemma FirstParseFacts(w: World, depth: nat, args: seq<string>, flags: FlagTable)
    requires WellFormed(flags) && RunCommandLine(w, depth, args, NewParse(flags)).stop == Running
    requires var r := RunCommandLine(w, depth, args, NewParse(flags));
             forall x | IsRecursive(x) && x in flags && x in r.flags ::
               KeptOrAssigned(w, x, flags[x], r.flags[x], ArgsTrace(w, depth, args, flags))
    ensures var r, q := RunCommandLine(w, depth, args, NewParse(flags)), RunArgs(w, depth, args, NewParse(flags));
            && q.stop == Running && q.trace == ArgsTrace(w, depth, args, flags)
            && WellFormed(r.flags) && Kept(flags, r)
            && (forall x | IsRecursive(x) :: x in flags && x in r.flags && Settled(w, flags, x, q, r))
    ensures var r, s3 := RunCommandLine(w, depth, args, NewParse(flags)), FollowPresets(w, depth, NewParse(flags));
            && WellFormed(s3.flags) && SameShapes(flags, s3.flags) && Replays(w, SetFlagsValue, s3, r)
            && r.trace[|s3.trace|..] == ArgsTrace(w, depth, args, flags)
  {
    var s0 := NewParse(flags);
    var r, q, s3 := RunCommandLine(w, depth, args, s0), RunArgs(w, depth, args, s0), FollowPresets(w, depth, s0);
    hide WellFormed, RunArgs, FollowPresets, ScanArgs, KeepsFlags, Replays, KeptOrAssigned, Settled;
    RunCommandLineFacts(w, depth, args, s0);
    KeptWellFormed(SetFlagsValue, s0, r);
    KeptShapes(SetFlagsValue, s0, r);
    PresetsKept(w, depth, flags);
    ShapesBack(flags, s3.flags);
    ArgsAgain(w, depth, args, args, s3, s0);
    ArgvProofs.RunArgsKeeps(w, depth, args, s3);
    forall x | IsRecursive(x) ensures x in flags && x in r.flags && Settled(w, flags, x, q, r) {
      RecursiveKnown(flags, x);
      SettledNow(w, flags, x, s3, q, r);
    }
  }

  lemma ShapesBack(a: FlagTable, b: FlagTable)
    requires SameShapes(a, b)
    ensures SameShapes(b, a)
  {
  }

  /** A parse that reaches its end was not stopped by its presets. */
  lemma PassStops(w: World, depth: nat, s: PState)
    requires FollowPresets(w, depth, s).stop == Running
    ensures s.stop == Running
    ensures var s1 := FollowPreset(w, depth, FLAGFILE, s);
            s1.stop == Running && FollowPreset(w, depth, FROMENV, s1).stop == Running
  {
    hide RunList, Contents;
  }

  lemma MatchedRuns(w: World, flags: FlagTable, q: PState, r: PState, u: PState, v: PState)
    requires Matched(w, flags, q, r, u, v)
    ensures v.stop == Running
  {
  }

  lemma SecondKeys(w: World, depth: nat, again: seq<string>, flags: FlagTable, r: PState)
    requires WellFormed(r.flags)
    ensures RunCommandLine(w, depth, again, NewParse(r.flags)).flags.Keys == r.flags.Keys
  {
    hide WellFormed, RunCommandLine, Replays;
    RunCommandLineFacts(w, depth, again, NewParse(r.flags));
  }

  /** The presets of the second parse leave a flag that the arguments do not assign as it is. */
  lemma ValueMatched(w: World, flags: FlagTable, n: string, q: PState, r: PState, s: PState, m: PState)
    requires WellFormed(flags) && WellFormed(r.flags) && n in flags && n in m.flags && Kept(flags, r)
    requires Matched(w, flags, q, r, s, m) && !SetsWell(w, n, flags[n], q.trace)
    requires WellFormed(s.flags) && SameShapes(flags, s.flags) && n in s.flags
    requires Replays(w, SetFlagsValue, s, r) && r.trace[|s.trace|..] == q.trace
    ensures n in r.flags && m.flags[n].current == r.flags[n].current
  {
    KeptShape(flags, r, n);
    WellTypedAt(flags, n);
    WellTypedAt(r.flags, n);
    WellTypedAt(s.flags, n);
    assert SameShape(flags[n], s.flags[n]) && SameLast(w, n, flags[n], s.trace, m.trace);
    hide WellFormed, ApplyAll, LastAccepted, SetsWell, Sets, SameShape, SameShapes, NoneSet, Kept, Alike;
    assert s.trace[|NewParse(flags).trace|..] == s.trace && m.trace[|NewParse(r.flags).trace|..] == m.trace;
    FlagAfter(w, n, s.trace, NewParse(flags));
    FlagAfter(w, n, q.trace, s);
    FlagAfter(w, n, m.trace, NewParse(r.flags));
    SetsWellShape(w, n, flags[n], s.flags[n], q.trace);
    NoneAccepted(w, n, s.flags[n], q.trace);
    SetsWellShape(w, n, flags[n], r.flags[n], m.trace);
    if !SetsWell(w, n, flags[n], m.trace) {
      NoneAccepted(w, n, r.flags[n], m.trace);
    }
  }
}
