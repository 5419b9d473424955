/** The graph behind the recursive flags: which files and environment values an assignment leads to,
    and how far a run follows them. It depends on the types and validators of the flags, not on their
    values. */
module References {
  import Values
  import opened Flags
  import Names
  import opened Flagfile
  import opened Engine
  import ParseProofs

  // ----- The graph -----

  /** Where references come from: a list being followed, and assignments being carried out. */
  datatype Place = Place(refs: seq<Ref>, assigns: seq<Assign>)

  predicate IsAccepted(w: World, flags: FlagTable, a: Assign) {
    a.name in flags && ParseProofs.Accepts(w, a.name, flags[a.name], a.text)
  }

  /** The assignment is accepted and its text lists the reference `s`. */
  predicate Holds(w: World, flags: FlagTable, a: Assign, s: Ref) {
    && IsAccepted(w, flags, a)
    && RefsOf(a.name, a.text).Some? && s in RefsOf(a.name, a.text).value
  }

  ghost predicate Offers(w: World, flags: FlagTable, at: Place, s: Ref) {
    s in at.refs || exists a | a in at.assigns :: Holds(w, flags, a, s)
  }

  /** What a reference leads to. */
  function Behind(w: World, flags: FlagTable, r: Ref): Place {
    match Expand(w, Sig(flags), r)
    case Assigns(inner) => Place([], inner)
    case _ => Place([], [])
  }

  /** The place that the first `i` steps of a path lead to. */
  function At(w: World, flags: FlagTable, root: Place, p: seq<Ref>, i: nat): Place
    requires i <= |p|
  {
    if i == 0 then root else Behind(w, flags, p[i - 1])
  }

  function End(w: World, flags: FlagTable, root: Place, p: seq<Ref>): Place {
    At(w, flags, root, p, |p|)
  }

  /** References that can be followed one after another, from `root` on. */
  ghost predicate IsPath(w: World, flags: FlagTable, root: Place, p: seq<Ref>) {
    forall i | 0 <= i < |p| :: Offers(w, flags, At(w, flags, root, p, i), p[i])
  }

  ghost predicate Distinct<T(!new)>(s: seq<T>) {
    forall i, j | 0 <= i < j < |s| :: s[i] != s[j]
  }

  /** Some file or environment value that can be reached from `root` leads back to itself. */
  ghost predicate Cyclic(w: World, flags: FlagTable, root: Place) {
    exists p: seq<Ref> :: IsPath(w, flags, root, p) && !Distinct(p)
  }

  /** The assignment is among those that can be reached from `root`. */
  ghost predicate Reachable(w: World, flags: FlagTable, root: Place, a: Assign) {
    exists p: seq<Ref> :: IsPath(w, flags, root, p) && a in End(w, flags, root, p).assigns
  }

  /** Every list that can be reached is well formed and every file exists. */
  ghost predicate Readable(w: World, flags: FlagTable, root: Place) {
    && (forall a | Reachable(w, flags, root, a) && IsAccepted(w, flags, a) :: RefsOf(a.name, a.text).Some?)
    && (forall p: seq<Ref> | IsPath(w, flags, root, p) && p != [] && p[|p| - 1].FileRef? ::
          p[|p| - 1].file in w.files)
  }

  lemma PathGrows(w: World, flags: FlagTable, root: Place, p: seq<Ref>, s: Ref)
    requires IsPath(w, flags, root, p) && Offers(w, flags, End(w, flags, root, p), s)
    ensures IsPath(w, flags, root, p + [s]) && End(w, flags, root, p + [s]) == Behind(w, flags, s)
  {
    hide Offers, Behind;
    var q := p + [s];
    forall i | 0 <= i < |q| ensures Offers(w, flags, At(w, flags, root, q, i), q[i]) {
      assert At(w, flags, root, q, i) == At(w, flags, root, p, i);
    }
  }

  /** The rest of a path is a path from what its first reference leads to. */
  lemma PathTail(w: World, flags: FlagTable, root: Place, p: seq<Ref>)
    requires IsPath(w, flags, root, p) && p != []
    ensures IsPath(w, flags, Behind(w, flags, p[0]), p[1..])
    ensures End(w, flags, Behind(w, flags, p[0]), p[1..]) == End(w, flags, root, p)
    ensures Offers(w, flags, root, p[0])
  {
    hide Offers, Behind;
    var next, q := Behind(w, flags, p[0]), p[1..];
    assert Offers(w, flags, At(w, flags, root, p, 0), p[0]);
    forall i | 0 <= i < |q| ensures Offers(w, flags, At(w, flags, next, q, i), q[i]) {
      assert At(w, flags, next, q, i) == At(w, flags, root, p, i + 1) && q[i] == p[i + 1];
      assert Offers(w, flags, At(w, flags, root, p, i + 1), p[i + 1]);
    }
  }

  /** A path may start from any place that offers its first reference. */
  lemma PathMoves(w: World, flags: FlagTable, root: Place, other: Place, p: seq<Ref>)
    requires IsPath(w, flags, root, p) && p != [] && Offers(w, flags, other, p[0])
    ensures IsPath(w, flags, other, p) && End(w, flags, other, p) == End(w, flags, root, p)
  {
    hide Offers, Behind;
    forall i | 0 <= i < |p| ensures Offers(w, flags, At(w, flags, other, p, i), p[i]) {
      assert Offers(w, flags, At(w, flags, root, p, i), p[i]);
    }
  }

  lemma PathFront(w: World, flags: FlagTable, root: Place, p: seq<Ref>, n: nat)
    requires IsPath(w, flags, root, p) && n <= |p|
    ensures IsPath(w, flags, root, p[..n]) && End(w, flags, root, p[..n]) == At(w, flags, root, p, n)
  {
    hide Offers, Behind;
    forall i | 0 <= i < n ensures Offers(w, flags, At(w, flags, root, p[..n], i), p[..n][i]) {
      assert Offers(w, flags, At(w, flags, root, p, i), p[i]);
      assert At(w, flags, root, p[..n], i) == At(w, flags, root, p, i);
    }
  }

  /** Going round a cycle makes paths of every length. */
  lemma {:induction false} LongPath(w: World, flags: FlagTable, root: Place, p: seq<Ref>, n: nat)
    returns (q: seq<Ref>)
    requires IsPath(w, flags, root, p) && !Distinct(p)
    ensures IsPath(w, flags, root, q) && |q| >= n
    decreases n - |p|
  {
    hide IsPath, End;
    if |p| >= n {
      return p;
    }
    var i, j :| 0 <= i < j < |p| && p[i] == p[j];
    var round := p[..j] + p[i..];
    assert round[i] == round[j];
    PathRepeats(w, flags, root, p, i, j);
    q := LongPath(w, flags, root, round, n);
  }

  lemma PathRepeats(w: World, flags: FlagTable, root: Place, p: seq<Ref>, i: nat, j: nat)
    requires IsPath(w, flags, root, p) && i < j < |p| && p[i] == p[j]
    ensures IsPath(w, flags, root, p[..j] + p[i..])
  {
    hide Offers, Behind;
    var q := p[..j] + p[i..];
    forall k | 0 <= k < |q| ensures Offers(w, flags, At(w, flags, root, q, k), q[k]) {
      var m := if k <= j then k else k - j + i;
      assert q[k] == p[m];
      assert Offers(w, flags, At(w, flags, root, p, m), p[m]);
      assert k > 0 ==> m > 0 && q[k - 1] == p[m - 1];
      assert At(w, flags, root, q, k) == At(w, flags, root, p, m);
    }
  }

  // ----- The files and environment values there are -----

  function Nodes(w: World): set<Ref> {
    (set f | f in w.files :: FileRef(f)) +
    (set e | e in w.environ && |e| >= 6 :: EnvRef(e[6..], true)) +
    (set e | e in w.environ && |e| >= 6 :: EnvRef(e[6..], false))
  }

  lemma ExpandsInNodes(w: World, sig: Names.Signature, r: Ref)
    requires Expand(w, sig, r).Assigns?
    ensures r in Nodes(w)
  {
    if r.EnvRef? {
      var e := "FLAGS_" + r.flagname;
      assert e[6..] == r.flagname && e in w.environ;
    }
  }

  /** Every reference of the path leads to assignments. */
  ghost predicate Leading(w: World, flags: FlagTable, p: seq<Ref>) {
    forall i | 0 <= i < |p| :: Expand(w, Sig(flags), p[i]).Assigns?
  }

  lemma LeadingInNodes(w: World, flags: FlagTable, p: seq<Ref>)
    requires Leading(w, flags, p)
    ensures forall i | 0 <= i < |p| :: p[i] in Nodes(w)
  {
    hide Nodes, Expand, Sig;
    forall i | 0 <= i < |p| ensures p[i] in Nodes(w) {
      ExpandsInNodes(w, Sig(flags), p[i]);
    }
  }

  lemma LeadingGrows(w: World, flags: FlagTable, p: seq<Ref>, s: Ref)
    requires Leading(w, flags, p) && Expand(w, Sig(flags), s).Assigns?
    ensures Leading(w, flags, p + [s])
  {
    hide Expand, Sig;
  }

  lemma {:induction false} Pigeonhole<T(!new)>(s: seq<T>, all: set<T>)
    requires Distinct(s) && forall i | 0 <= i < |s| :: s[i] in all
    ensures |s| <= |all|
  {
    if s != [] {
      var x := s[|s| - 1];
      Pigeonhole(s[..|s| - 1], all - {x});
    }
  }

  // ----- A run stays within the graph -----

  ghost predicate Kept(flags: FlagTable, st: PState) {
    WellFormed(st.flags) && ParseProofs.SameShapes(flags, st.flags)
  }

  /** What a run from `root` with `room` levels of the stack may do. */
  ghost predicate Within(w: World, flags: FlagTable, root: Place, room: nat, prim: Prim) {
    match prim
    case Set(name, text) => Reachable(w, flags, root, Assign(name, text))
    case Halt(Exited) => !Readable(w, flags, root)
    case Halt(Overflowed) =>
      exists p: seq<Ref> :: IsPath(w, flags, root, p) && |p| > room && Leading(w, flags, p)
    case _ => true
  }

  /** Everything done since the trace had length `k` is within the graph. */
  ghost predicate Tracked(w: World, flags: FlagTable, root: Place, room: nat, k: nat, st: PState) {
    && Kept(flags, st) && k <= |st.trace|
    && (forall i | k <= i < |st.trace| :: Within(w, flags, root, room, st.trace[i]))
    && (st.stop == Running || Within(w, flags, root, room, Halt(st.stop)))
  }

  lemma ApplyTracked(w: World, flags: FlagTable, root: Place, room: nat, k: nat, prim: Prim, st: PState)
    requires Tracked(w, flags, root, room, k, st) && Within(w, flags, root, room, prim)
    requires st.stop == Running && (prim.Set? ==> prim.name in st.flags)
    ensures Tracked(w, flags, root, room, k, Apply(w, SetFlagsValue, prim, st))
  {
    hide Within;
    var next := Apply(w, SetFlagsValue, prim, st);
    ApplyTraces(w, prim, st);
    assert Kept(flags, next) by { ApplyKept(w, flags, prim, st); }
    hide Kept, Apply;
  }

  lemma ApplyTraces(w: World, prim: Prim, st: PState)
    ensures var next := Apply(w, SetFlagsValue, prim, st);
            next.trace == st.trace + [prim] && next.stop == if prim.Halt? then prim.stop else st.stop
  {
    hide SetFlag;
  }

  lemma ApplyKept(w: World, flags: FlagTable, prim: Prim, st: PState)
    requires Kept(flags, st) && (prim.Set? ==> prim.name in st.flags)
    ensures Kept(flags, Apply(w, SetFlagsValue, prim, st))
  {
    hide WellFormed, SetFlag;
    if prim.Set? {
      ParseProofs.SetKeepsTable(w, SetFlagsValue, prim, st);
      WellTypedAt(st.flags, prim.name);
      ParseProofs.SetFlagKeeps(w.validators, prim.name, st.flags[prim.name], prim.text, SetFlagsValue);
    }
  }

  lemma WellTypedAt(flags: FlagTable, name: string)
    requires WellFormed(flags) && name in flags
    ensures flags[name].WellTyped()
  {
  }

  lemma RecursiveKnown(flags: FlagTable, name: string)
    requires WellFormed(flags) && IsRecursive(name)
    ensures name in flags && Values.TypeOf(flags[name].current) == Values.FvString
  {
    assert flags[name].WellTyped();
  }

  lemma KeptAccepts(w: World, flags: FlagTable, st: PState, a: Assign)
    requires Kept(flags, st)
    ensures IsAccepted(w, st.flags, a) <==> IsAccepted(w, flags, a)
    ensures Sig(st.flags) == Sig(flags)
  {
    hide WellFormed;
    ParseProofs.SameSig(flags, st.flags);
    if a.name in flags { ParseProofs.SameShapeAccepts(w, a.name, flags[a.name], st.flags[a.name]); }
  }

  /** The set of one assignment, and the references it leaves to be followed. */
  lemma SetEffect(w: World, flags: FlagTable, a: Assign, st: PState)
    requires Kept(flags, st) && a.name in st.flags
    ensures var done := Apply(w, SetFlagsValue, Set(a.name, a.text), st);
            var refs := RefsOf(a.name, a.text);
            if !IsAccepted(w, flags, a) then
              SetStep(w, SetFlagsValue, a, st) == done && StepRefs(w, SetFlagsValue, a, st) == []
            else if refs.None? then
              && SetStep(w, SetFlagsValue, a, st) == Apply(w, SetFlagsValue, Halt(Exited), done)
              && StepRefs(w, SetFlagsValue, a, st) == []
            else
              SetStep(w, SetFlagsValue, a, st) == done && StepRefs(w, SetFlagsValue, a, st) == refs.value
  {
    KeptAccepts(w, flags, st, a);
    if IsRecursive(a.name) { RecursiveKnown(st.flags, a.name); }
    hide WellFormed, TryParse, ParseProofs.SameShapes, Apply;
    ParseProofs.SetValue(w, a.name, st.flags[a.name], a.text);
    if IsRecursive(a.name) && IsAccepted(w, flags, a) {
      ParseProofs.StringAccepted(w, a.name, st.flags[a.name], a.text);
    }
  }

  lemma TrackedFacts(w: World, flags: FlagTable, root: Place, room: nat, k: nat, st: PState)
    requires Tracked(w, flags, root, room, k, st)
    ensures Kept(flags, st) && st.flags.Keys == flags.Keys && k <= |st.trace|
    ensures st.stop == Running || Within(w, flags, root, room, Halt(st.stop))
  {
  }

  lemma TrackedStart(w: World, flags: FlagTable, root: Place, room: nat, st: PState)
    requires Kept(flags, st) && st.stop == Running
    ensures Tracked(w, flags, root, room, |st.trace|, st)
  {
  }

  /** A run within the graph ends for an unreadable text or file, or for a path longer than the stack. */
  lemma TrackedStops(w: World, flags: FlagTable, root: Place, room: nat, k: nat, st: PState)
    requires Tracked(w, flags, root, room, k, st)
    ensures st.stop == Exited ==> !Readable(w, flags, root)
    ensures st.stop == Overflowed ==> Within(w, flags, root, room, Halt(Overflowed))
  {
    hide Readable, IsPath, Leading, Kept;
  }

  lemma EmptyPath(w: World, flags: FlagTable, root: Place)
    ensures IsPath(w, flags, root, []) && Leading(w, flags, []) && End(w, flags, root, []) == root
  {
  }

  lemma SelfKept(st: PState)
    requires WellFormed(st.flags)
    ensures Kept(st.flags, st)
  {
  }

  /** Carrying out one reachable assignment, before its references are followed. */
  lemma StepTracked(
      w: World, flags: FlagTable, root: Place, room: nat, k: nat, p: seq<Ref>, a: Assign, st: PState)
    requires Tracked(w, flags, root, room, k, st) && st.stop == Running && a.name in st.flags
    requires IsPath(w, flags, root, p) && a in End(w, flags, root, p).assigns
    ensures Tracked(w, flags, root, room, k, SetStep(w, SetFlagsValue, a, st))
    ensures forall s | s in StepRefs(w, SetFlagsValue, a, st) :: Offers(w, flags, End(w, flags, root, p), s)
  {
    assert Kept(flags, st);
    SetEffect(w, flags, a, st);
    assert Reachable(w, flags, root, a);
    var done := Apply(w, SetFlagsValue, Set(a.name, a.text), st);
    ApplyTracked(w, flags, root, room, k, Set(a.name, a.text), st);
    if IsAccepted(w, flags, a) && RefsOf(a.name, a.text).None? {
      assert !Readable(w, flags, root);
      ApplyTraces(w, Set(a.name, a.text), st);
      ApplyTracked(w, flags, root, room, k, Halt(Exited), done);
    }
  }

  lemma {:induction false} RunTracked(
      w: World, flags: FlagTable, root: Place, room: nat, k: nat,
      depth: nat, p: seq<Ref>, assigns: seq<Assign>, st: PState)
    requires Tracked(w, flags, root, room, k, st)
    requires IsPath(w, flags, root, p) && |p| + depth >= room && Leading(w, flags, p)
    requires forall a | a in assigns :: a in End(w, flags, root, p).assigns
    ensures Tracked(w, flags, root, room, k, RunAssigns(w, depth, SetFlagsValue, assigns, st))
    decreases depth, 1, |assigns|
  {
    hide Tracked, IsPath, End, Within, SetStep, StepRefs, Leading;
    if assigns != [] && st.stop == Running {
      var a := assigns[0];
      assert a in assigns && forall b | b in assigns[1..] :: b in assigns;
      if a.name !in st.flags {
        RunTracked(w, flags, root, room, k, depth, p, assigns[1..], st);
      } else {
        StepTracked(w, flags, root, room, k, p, a, st);
        var st1, refs := SetStep(w, SetFlagsValue, a, st), StepRefs(w, SetFlagsValue, a, st);
        RefsTracked(w, flags, root, room, k, depth, p, refs, st1);
        RunTracked(w, flags, root, room, k, depth, p, assigns[1..],
                   RunRefs(w, depth, SetFlagsValue, refs, st1));
      }
    }
  }

  lemma {:induction false} RefsTracked(
      w: World, flags: FlagTable, root: Place, room: nat, k: nat,
      depth: nat, p: seq<Ref>, refs: seq<Ref>, st: PState)
    requires Tracked(w, flags, root, room, k, st)
    requires IsPath(w, flags, root, p) && |p| + depth >= room && Leading(w, flags, p)
    requires forall s | s in refs :: Offers(w, flags, End(w, flags, root, p), s)
    ensures Tracked(w, flags, root, room, k, RunRefs(w, depth, SetFlagsValue, refs, st))
    decreases depth, 0, |refs|
  {
    hide Tracked, IsPath, End, Within, Follow, Offers, Leading;
    if refs != [] && st.stop == Running {
      assert refs[0] in refs && forall s | s in refs[1..] :: s in refs;
      FollowTracked(w, flags, root, room, k, depth, p, refs[0], st);
      RefsTracked(w, flags, root, room, k, depth, p, refs[1..], Follow(w, depth, SetFlagsValue, refs[0], st));
    }
  }

  lemma {:induction false} FollowTracked(
      w: World, flags: FlagTable, root: Place, room: nat, k: nat,
      depth: nat, p: seq<Ref>, s: Ref, st: PState)
    requires Tracked(w, flags, root, room, k, st) && st.stop == Running
    requires IsPath(w, flags, root, p) && |p| + depth >= room && Leading(w, flags, p)
    requires Offers(w, flags, End(w, flags, root, p), s)
    ensures Tracked(w, flags, root, room, k, Follow(w, depth, SetFlagsValue, s, st))
    decreases depth, 0, 0
  {
    hide Tracked, IsPath, Offers, Within, Expand, Apply, End, Behind, Kept, Sig, Leading, RunAssigns;
    var q := p + [s];
    PathGrows(w, flags, root, p, s);
    TrackedFacts(w, flags, root, room, k, st);
    KeptAccepts(w, flags, st, Assign("", ""));
    ExpandWithin(w, flags, root, room, q);
    BehindExpands(w, flags, s);
    match Expand(w, Sig(st.flags), s) {
      case Nothing =>
      case Note(prim) =>
        NotesNoSet(w, Sig(flags), s);
        ApplyTracked(w, flags, root, room, k, prim, st);
      case Assigns(inner) =>
        LeadingGrows(w, flags, p, s);
        if depth == 0 {
          OverflowWithin(w, flags, root, room, q);
          ApplyTracked(w, flags, root, room, k, Halt(Overflowed), st);
        } else {
          RunTracked(w, flags, root, room, k, depth - 1, q, inner, st);
        }
    }
  }

  lemma BehindExpands(w: World, flags: FlagTable, s: Ref)
    ensures match Expand(w, Sig(flags), s)
            case Assigns(inner) => Behind(w, flags, s) == Place([], inner)
            case _ => Behind(w, flags, s) == Place([], [])
  {
    hide Expand, Sig;
  }

  lemma OverflowWithin(w: World, flags: FlagTable, root: Place, room: nat, q: seq<Ref>)
    requires IsPath(w, flags, root, q) && |q| > room && Leading(w, flags, q)
    ensures Within(w, flags, root, room, Halt(Overflowed))
  {
  }

  lemma NotesNoSet(w: World, sig: Names.Signature, s: Ref)
    requires Expand(w, sig, s).Note?
    ensures !Expand(w, sig, s).prim.Set?
    ensures Expand(w, sig, s).prim.Halt? ==> Expand(w, sig, s).prim.stop == Exited
  {
  }

  /** A reference that ends a path records an error at most, and ends the program only for a missing
      file. */
  lemma ExpandWithin(w: World, flags: FlagTable, root: Place, room: nat, q: seq<Ref>)
    requires IsPath(w, flags, root, q) && q != []
    ensures var e := Expand(w, Sig(flags), q[|q| - 1]);
            e.Note? ==> Within(w, flags, root, room, e.prim)
  {
    hide IsPath, Leading;
  }

  // ----- A run that is not stopped follows every path -----

  /** The path `p` was followed to its end: within `depth` levels of the stack, and the assignment `a`, if
      it is one of those `there`, was carried out. */
  ghost predicate Ran(w: World, flags: FlagTable, depth: nat, there: bool, p: seq<Ref>, a: Assign, r: PState) {
    && (p != [] && p[|p| - 1].FileRef? ==> p[|p| - 1].file in w.files)
    && (p != [] && Expand(w, Sig(flags), p[|p| - 1]).Assigns? ==> |p| <= depth)
    && (there && a.name in flags ==>
          && Set(a.name, a.text) in r.trace
          && (IsAccepted(w, flags, a) ==> RefsOf(a.name, a.text).Some?))
  }

  lemma TraceStays(w: World, depth: nat, assigns: seq<Assign>, prim: Prim, st: PState)
    requires prim in st.trace
    ensures prim in RunAssigns(w, depth, SetFlagsValue, assigns, st).trace
  {
    hide RunAssigns;
    forall p: Prim, s: PState | prim in s.trace ensures prim in Apply(w, SetFlagsValue, p, s).trace {
      ApplyTraces(w, p, s);
    }
    RunAssignsKeeps(w, depth, SetFlagsValue, assigns, st, (s: PState) => prim in s.trace);
  }

  lemma RefsTraceStays(w: World, depth: nat, refs: seq<Ref>, prim: Prim, st: PState)
    requires prim in st.trace
    ensures prim in RunRefs(w, depth, SetFlagsValue, refs, st).trace
  {
    hide RunRefs;
    forall p: Prim, s: PState | prim in s.trace ensures prim in Apply(w, SetFlagsValue, p, s).trace {
      ApplyTraces(w, p, s);
    }
    RunRefsKeeps(w, depth, SetFlagsValue, refs, st, (s: PState) => prim in s.trace);
  }

  lemma RanStays(w: World, flags: FlagTable, depth: nat, there: bool, p: seq<Ref>, a: Assign, r: PState, later: PState)
    requires Ran(w, flags, depth, there, p, a, r)
    requires Set(a.name, a.text) in r.trace ==> Set(a.name, a.text) in later.trace
    ensures Ran(w, flags, depth, there, p, a, later)
  {
    hide Expand, IsAccepted, RefsOf;
  }

  lemma RefsKept(w: World, flags: FlagTable, depth: nat, refs: seq<Ref>, st: PState)
    requires Kept(flags, st)
    ensures Kept(flags, RunRefs(w, depth, SetFlagsValue, refs, st))
  {
    hide Kept, RunRefs;
    forall p: Prim, s: PState | Kept(flags, s) && Legal(p, s) ensures Kept(flags, Apply(w, SetFlagsValue, p, s)) {
      ApplyKept(w, flags, p, s);
    }
    RunRefsKeeps(w, depth, SetFlagsValue, refs, st, s => Kept(flags, s));
  }

  lemma StepKept(w: World, flags: FlagTable, a: Assign, st: PState)
    requires Kept(flags, st) && a.name in st.flags
    ensures Kept(flags, SetStep(w, SetFlagsValue, a, st))
  {
    hide Kept, Apply, Pending;
    ApplyKept(w, flags, Set(a.name, a.text), st);
    ApplyKept(w, flags, Halt(Exited), Apply(w, SetFlagsValue, Set(a.name, a.text), st));
  }

  lemma KeptKeys(flags: FlagTable, st: PState)
    requires Kept(flags, st)
    ensures st.flags.Keys == flags.Keys
  {
  }

  lemma {:induction false} RunsAssigns(
      w: World, flags: FlagTable, depth: nat, assigns: seq<Assign>, p: seq<Ref>, a: Assign, st: PState)
    requires Kept(flags, st) && IsPath(w, flags, Place([], assigns), p)
    requires RunAssigns(w, depth, SetFlagsValue, assigns, st).stop == Running
    ensures Ran(w, flags, depth, a in End(w, flags, Place([], assigns), p).assigns, p, a,
                RunAssigns(w, depth, SetFlagsValue, assigns, st))
    decreases depth, 3, |assigns|
  {
    hide Kept, SetStep, StepRefs, Ran, IsPath, Behind, Holds;
    KeptKeys(flags, st);
    if p == [] && !(a in assigns && a.name in flags) {
      NothingToRun(w, flags, depth, a in assigns, a, RunAssigns(w, depth, SetFlagsValue, assigns, st));
      return;
    }
    var b := Holder(w, flags, assigns, p, a);
    var x, rest := assigns[0], assigns[1..];
    if b in rest {
      var st2 := if x.name !in st.flags then st else
        RunRefs(w, depth, SetFlagsValue, StepRefs(w, SetFlagsValue, x, st), SetStep(w, SetFlagsValue, x, st));
      if x.name in st.flags {
        StepKept(w, flags, x, st);
        RefsKept(w, flags, depth, StepRefs(w, SetFlagsValue, x, st), SetStep(w, SetFlagsValue, x, st));
      }
      HolderMoves(w, flags, assigns, rest, p, a, b);
      RunsAssigns(w, flags, depth, rest, p, a, st2);
    } else {
      assert b == x;
      RunsFirst(w, flags, depth, assigns, p, a, st);
    }
  }

  /** The assignment that holds the first reference of the path, or `a` itself. */
  lemma Holder(w: World, flags: FlagTable, assigns: seq<Assign>, p: seq<Ref>, a: Assign) returns (b: Assign)
    requires IsPath(w, flags, Place([], assigns), p) && (p == [] ==> a in assigns && a.name in flags)
    ensures b in assigns && b.name in flags
    ensures if p == [] then b == a else Holds(w, flags, b, p[0])
  {
    if p == [] {
      b := a;
    } else {
      assert Offers(w, flags, At(w, flags, Place([], assigns), p, 0), p[0]);
      b :| b in assigns && Holds(w, flags, b, p[0]);
    }
  }

  lemma HolderMoves(
      w: World, flags: FlagTable, assigns: seq<Assign>, rest: seq<Assign>, p: seq<Ref>, a: Assign, b: Assign)
    requires IsPath(w, flags, Place([], assigns), p) && b in rest
    requires if p == [] then b == a else Holds(w, flags, b, p[0])
    ensures IsPath(w, flags, Place([], rest), p)
    ensures p != [] ==> End(w, flags, Place([], rest), p) == End(w, flags, Place([], assigns), p)
    ensures p == [] ==> a in End(w, flags, Place([], rest), p).assigns
  {
    hide Holds, Behind;
    if p != [] { PathMoves(w, flags, Place([], assigns), Place([], rest), p); }
  }

  lemma NothingToRun(w: World, flags: FlagTable, depth: nat, there: bool, a: Assign, r: PState)
    requires !(there && a.name in flags)
    ensures Ran(w, flags, depth, there, [], a, r)
  {
  }

  /** The first assignment is the one that the path starts from. */
  lemma {:induction false} RunsFirst(
      w: World, flags: FlagTable, depth: nat, assigns: seq<Assign>, p: seq<Ref>, a: Assign, st: PState)
    requires Kept(flags, st) && st.stop == Running && IsPath(w, flags, Place([], assigns), p)
    requires assigns != [] && assigns[0].name in flags
    requires if p == [] then assigns[0] == a else Holds(w, flags, assigns[0], p[0])
    requires RunAssigns(w, depth, SetFlagsValue, assigns, st).stop == Running
    ensures Ran(w, flags, depth, a in End(w, flags, Place([], assigns), p).assigns, p, a,
                RunAssigns(w, depth, SetFlagsValue, assigns, st))
    decreases depth, 2, 0
  {
    hide Kept, SetStep, StepRefs, Ran, IsPath, End;
    KeptKeys(flags, st);
    var x := assigns[0];
    var st1, refs := SetStep(w, SetFlagsValue, x, st), StepRefs(w, SetFlagsValue, x, st);
    var st2 := RunRefs(w, depth, SetFlagsValue, refs, st1);
    StepKept(w, flags, x, st);
    StepRuns(w, flags, x, st);
    var there := a in End(w, flags, Place([], assigns), p).assigns;
    if p == [] {
      SetRan(w, flags, depth, there, a, st1);
      if Set(a.name, a.text) in st1.trace { RefsTraceStays(w, depth, refs, Set(a.name, a.text), st1); }
      RanStays(w, flags, depth, there, p, a, st1, st2);
    } else {
      PathMoves(w, flags, Place([], assigns), Place(refs, []), p);
      RunsRefs(w, flags, depth, refs, p, a, st1);
    }
    if Set(a.name, a.text) in st2.trace { TraceStays(w, depth, assigns[1..], Set(a.name, a.text), st2); }
    RanStays(w, flags, depth, there, p, a, st2, RunAssigns(w, depth, SetFlagsValue, assigns, st));
  }

  lemma StepRuns(w: World, flags: FlagTable, x: Assign, st: PState)
    requires Kept(flags, st) && x.name in st.flags && SetStep(w, SetFlagsValue, x, st).stop == Running
    ensures Set(x.name, x.text) in SetStep(w, SetFlagsValue, x, st).trace
    ensures IsAccepted(w, flags, x) ==>
      RefsOf(x.name, x.text).Some? && StepRefs(w, SetFlagsValue, x, st) == RefsOf(x.name, x.text).value
  {
    SetEffect(w, flags, x, st);
    hide SetStep, StepRefs, Kept, Apply, RefsOf, IsAccepted;
    var done := Apply(w, SetFlagsValue, Set(x.name, x.text), st);
    ApplyTraces(w, Set(x.name, x.text), st);
    ApplyTraces(w, Halt(Exited), done);
  }

  lemma SetRan(w: World, flags: FlagTable, depth: nat, there: bool, a: Assign, r: PState)
    requires Set(a.name, a.text) in r.trace && (IsAccepted(w, flags, a) ==> RefsOf(a.name, a.text).Some?)
    ensures Ran(w, flags, depth, there, [], a, r)
  {
  }

  lemma {:induction false} RunsRefs(
      w: World, flags: FlagTable, depth: nat, refs: seq<Ref>, p: seq<Ref>, a: Assign, st: PState)
    requires Kept(flags, st) && p != [] && IsPath(w, flags, Place(refs, []), p)
    requires RunRefs(w, depth, SetFlagsValue, refs, st).stop == Running
    ensures Ran(w, flags, depth, a in End(w, flags, Place(refs, []), p).assigns, p, a,
                RunRefs(w, depth, SetFlagsValue, refs, st))
    decreases depth, 1, |refs|
  {
    hide Kept, Follow, Ran, IsPath, Behind;
    StartsInRefs(w, flags, refs, p);
    var f := Follow(w, depth, SetFlagsValue, refs[0], st);
    var there := a in End(w, flags, Place(refs, []), p).assigns;
    if refs[0] == p[0] {
      PathTail(w, flags, Place(refs, []), p);
      RunsFollow(w, flags, depth, p, a, st);
      if Set(a.name, a.text) in f.trace { RefsTraceStays(w, depth, refs[1..], Set(a.name, a.text), f); }
      RanStays(w, flags, depth, there, p, a, f, RunRefs(w, depth, SetFlagsValue, refs, st));
    } else {
      FollowKept(w, flags, depth, refs[0], st);
      PathMoves(w, flags, Place(refs, []), Place(refs[1..], []), p);
      RunsRefs(w, flags, depth, refs[1..], p, a, f);
    }
  }

  lemma StartsInRefs(w: World, flags: FlagTable, refs: seq<Ref>, p: seq<Ref>)
    requires p != [] && IsPath(w, flags, Place(refs, []), p)
    ensures p[0] in refs
  {
    assert Offers(w, flags, At(w, flags, Place(refs, []), p, 0), p[0]);
  }

  lemma FollowKept(w: World, flags: FlagTable, depth: nat, s: Ref, st: PState)
    requires Kept(flags, st) && st.stop == Running
    ensures Kept(flags, Follow(w, depth, SetFlagsValue, s, st))
  {
    hide Kept, Follow;
    RefsKept(w, flags, depth, [s], st);
    assert [s][1..] == [];
  }

  lemma {:induction false} RunsFollow(w: World, flags: FlagTable, depth: nat, p: seq<Ref>, a: Assign, st: PState)
    requires Kept(flags, st) && st.stop == Running && p != []
    requires IsPath(w, flags, Behind(w, flags, p[0]), p[1..])
    requires Follow(w, depth, SetFlagsValue, p[0], st).stop == Running
    ensures Ran(w, flags, depth, a in End(w, flags, Behind(w, flags, p[0]), p[1..]).assigns, p, a,
                Follow(w, depth, SetFlagsValue, p[0], st))
    decreases depth, 0, 0
  {
    hide Kept, Ran, IsPath, End, Behind, Expand, Apply;
    KeptAccepts(w, flags, st, Assign("", ""));
    BehindExpands(w, flags, p[0]);
    var r := Follow(w, depth, SetFlagsValue, p[0], st);
    var there := a in End(w, flags, Behind(w, flags, p[0]), p[1..]).assigns;
    match Expand(w, Sig(st.flags), p[0]) {
      case Assigns(inner) =>
        ApplyTraces(w, Halt(Overflowed), st);
        RunsAssigns(w, flags, depth - 1, inner, p[1..], a, st);
        RanBehind(w, flags, depth, there, p, a, r);
      case Nothing =>
        NothingBehind(w, flags, p);
        NoteRan(w, flags, depth, p, a, r);
      case Note(prim) =>
        NothingBehind(w, flags, p);
        NotesNoSet(w, Sig(flags), p[0]);
        ApplyTraces(w, prim, st);
        NoteRan(w, flags, depth, p, a, r);
    }
  }

  lemma RanBehind(w: World, flags: FlagTable, depth: nat, there: bool, p: seq<Ref>, a: Assign, r: PState)
    requires depth > 0 && p != [] && Expand(w, Sig(flags), p[0]).Assigns?
    requires Ran(w, flags, depth - 1, there, p[1..], a, r)
    ensures Ran(w, flags, depth, there, p, a, r)
  {
    hide IsAccepted, RefsOf, Sig;
    var q := p[1..];
    if q == [] {
      assert p[|p| - 1] == p[0];
    } else {
      assert p[|p| - 1] == q[|q| - 1];
    }
  }

  /** A reference that leads nowhere ends every path. */
  lemma NothingBehind(w: World, flags: FlagTable, p: seq<Ref>)
    requires p != [] && Behind(w, flags, p[0]) == Place([], [])
    requires IsPath(w, flags, Behind(w, flags, p[0]), p[1..])
    ensures |p| == 1 && End(w, flags, Behind(w, flags, p[0]), p[1..]) == Place([], [])
  {
    if |p| > 1 {
      PathTail(w, flags, Place([], []), p[1..]);
    }
  }

  lemma NoteRan(w: World, flags: FlagTable, depth: nat, p: seq<Ref>, a: Assign, r: PState)
    requires |p| == 1
    requires match Expand(w, Sig(flags), p[0])
             case Nothing => true
             case Note(prim) => !prim.Halt?
             case Assigns(_) => false
    ensures Ran(w, flags, depth, false, p, a, r)
  {
    hide Sig, RefsOf;
  }
}
