/** What holds of every parse: it is a run of primitives, its error records are sound, and under
    SET_FLAGS_VALUE it does not depend on the values it finds. */
module ParseProofs {
  import Text
  import opened Values
  import opened Flags
  import Names
  import Flagfile
  import opened Engine

  // ----- A parse is the run of its trace -----

  function ApplyAll(w: World, mode: Mode, ps: seq<Prim>, st: PState): PState {
    if ps == [] then st
    else Apply(w, mode, ps[|ps| - 1], ApplyAll(w, mode, ps[..|ps| - 1], st))
  }

  /** `st` came from `st0` by exactly the primitives its trace has gained. */
  ghost predicate Replays(w: World, mode: Mode, st0: PState, st: PState) {
    && |st0.trace| <= |st.trace|
    && st == ApplyAll(w, mode, st.trace[|st0.trace|..], st0)
  }

  lemma ReplaysStable(w: World, mode: Mode, st0: PState)
    ensures Stable(w, mode, st => Replays(w, mode, st0, st))
  {
    forall p: Prim, st: PState | Replays(w, mode, st0, st) && Legal(p, st)
      ensures Replays(w, mode, st0, Apply(w, mode, p, st))
    {
      var next := Apply(w, mode, p, st);
      var ps := next.trace[|st0.trace|..];
      assert ps[..|ps| - 1] == st.trace[|st0.trace|..];
    }
  }

  lemma RunAssignsReplays(w: World, depth: nat, mode: Mode, assigns: seq<Flagfile.Assign>, st: PState)
    ensures Replays(w, mode, st, RunAssigns(w, depth, mode, assigns, st))
  {
    ReplaysStable(w, mode, st);
    assert st.trace[|st.trace|..] == [];
    RunAssignsKeeps(w, depth, mode, assigns, st, s => Replays(w, mode, st, s));
  }

  // ----- What a parse keeps -----

  /** Names, types, default values (outside SET_FLAGS_DEFAULT) and validators do not change. */
  ghost predicate KeepsFlags(mode: Mode, st0: PState, st: PState) {
    && WellFormed(st.flags)
    && st.flags.Keys == st0.flags.Keys
    && forall n | n in st.flags ::
         && TypeOf(st.flags[n].defvalue) == TypeOf(st0.flags[n].defvalue)
         && st.flags[n].validator == st0.flags[n].validator
         && (mode != SetFlagsDefault ==> st.flags[n].defvalue == st0.flags[n].defvalue)
         && (st0.flags[n].modified ==> st.flags[n].modified)
  }

  lemma SetFlagKeeps(ok: Validators, name: string, f: FlagState, text: string, mode: Mode)
    requires f.WellTyped()
    ensures var g := SetFlag(ok, name, f, text, mode).flag;
            && g.WellTyped() && TypeOf(g.defvalue) == TypeOf(f.defvalue)
            && g.validator == f.validator && (f.modified ==> g.modified)
            && (mode != SetFlagsDefault ==> g.defvalue == f.defvalue)
  {
  }

  /** A set changes one entry of the flag table, and no type. */
  lemma SetKeepsTable(w: World, mode: Mode, p: Prim, st: PState)
    requires p.Set? && p.name in st.flags && WellFormed(st.flags)
    ensures var next := Apply(w, mode, p, st);
            && next.stop == st.stop && next.flags.Keys == st.flags.Keys
            && next.flags == st.flags[p.name := next.flags[p.name]]
            && WellFormed(next.flags) && Sig(next.flags) == Sig(st.flags)
  {
    var next := Apply(w, mode, p, st);
    var f, g := st.flags[p.name], next.flags[p.name];
    SetFlagKeeps(w.validators, p.name, f, p.text, mode);
    UpdateKeepsTable(st.flags, p.name, g);
  }

  lemma UpdateKeepsTable(flags: FlagTable, name: string, g: FlagState)
    requires name in flags && WellFormed(flags)
    requires g.WellTyped() && TypeOf(g.defvalue) == TypeOf(flags[name].defvalue)
    ensures WellFormed(flags[name := g]) && Sig(flags[name := g]) == Sig(flags)
  {
  }

  /** A set records no error, or one that is not about an unknown name. */
  lemma SetErrors(w: World, mode: Mode, p: Prim, st: PState)
    requires p.Set? && p.name in st.flags
    ensures var r := SetFlag(w.validators, p.name, st.flags[p.name], p.text, mode);
            && Apply(w, mode, p, st).errors ==
                 (if r.error.Some? then st.errors[p.name := r.error] else st.errors)
            && (r.error.Some? ==> !IsNameError(r.error.value))
  {
  }

  lemma ParseKeepsFlags(w: World, depth: nat, mode: Mode, assigns: seq<Flagfile.Assign>, st0: PState)
    requires WellFormed(st0.flags)
    ensures var st := RunAssigns(w, depth, mode, assigns, st0);
            KeepsFlags(mode, st0, st) && Sig(st.flags) == Sig(st0.flags)
  {
    forall p: Prim, st: PState | KeepsFlags(mode, st0, st) && Legal(p, st) {
      ApplyKeepsFlags(w, mode, st0, p, st);
    }
    RunAssignsKeeps(w, depth, mode, assigns, st0, st => KeepsFlags(mode, st0, st));
  }

  lemma ApplyKeepsFlags(w: World, mode: Mode, st0: PState, p: Prim, st: PState)
    requires KeepsFlags(mode, st0, st) && Legal(p, st)
    ensures KeepsFlags(mode, st0, Apply(w, mode, p, st))
  {
    match p
    case Set(name, text) =>
      SetKeepsTable(w, mode, p, st);
      SetFlagKeeps(w.validators, name, st.flags[name], text, mode);
    case Unknown(_, _) =>
    case Fail(_, _) =>
    case Halt(_) =>
  }

  // ----- Error accounting -----

  /** Undefined names are exactly the keys of name errors and never resolve to a flag; every other
      error is about a name that does resolve. Cleared entries do not occur before ReportErrors. */
  ghost predicate SoundErrors(st: PState) {
    && (forall k | k in st.undefined :: k in st.errors)
    && (forall k | k in st.errors ::
          && st.errors[k].Some?
          && (k in st.undefined <==> Names.FindFlag(Sig(st.flags), k).None?)
          && (k in st.undefined <==> IsNameError(st.errors[k].value)))
  }

  lemma SoundErrorsStable(w: World, mode: Mode)
    ensures Stable(w, mode, (st: PState) => WellFormed(st.flags) && SoundErrors(st))
  {
    forall p: Prim, st: PState | WellFormed(st.flags) && SoundErrors(st) && Legal(p, st) {
      ApplyKeepsSoundErrors(w, mode, p, st);
    }
  }

  lemma ApplyKeepsSoundErrors(w: World, mode: Mode, p: Prim, st: PState)
    requires WellFormed(st.flags) && SoundErrors(st) && Legal(p, st)
    ensures WellFormed(Apply(w, mode, p, st).flags) && SoundErrors(Apply(w, mode, p, st))
  {
    match p
    case Set(name, _) =>
      SetKeepsTable(w, mode, p, st);
      SetErrors(w, mode, p, st);
      assert Names.FindFlag(Sig(st.flags), name) == Text.Some(name);
    case Unknown(_, _) =>
    case Fail(_, _) =>
    case Halt(_) =>
  }

  lemma ParseKeepsSoundErrors(w: World, depth: nat, mode: Mode, assigns: seq<Flagfile.Assign>, st: PState)
    requires WellFormed(st.flags) && SoundErrors(st)
    ensures SoundErrors(RunAssigns(w, depth, mode, assigns, st))
  {
    SoundErrorsStable(w, mode);
    RunAssignsKeeps(w, depth, mode, assigns, st, (s: PState) => WellFormed(s.flags) && SoundErrors(s));
  }

  ghost predicate Remembers(st0: PState, st: PState) {
    && st0.errors.Keys <= st.errors.Keys && st0.undefined <= st.undefined
    && forall k | k in st0.errors && st0.errors[k].Some? :: st.errors[k].Some?
  }

  /** Errors are overwritten but never forgotten while parsing. */
  lemma ParseKeepsErrors(w: World, depth: nat, mode: Mode, assigns: seq<Flagfile.Assign>, st0: PState)
    ensures Remembers(st0, RunAssigns(w, depth, mode, assigns, st0))
  {
    forall p: Prim, st: PState | Remembers(st0, st) && Legal(p, st) {
      ApplyRemembers(w, mode, st0, p, st);
    }
    RunAssignsKeeps(w, depth, mode, assigns, st0, st => Remembers(st0, st));
  }

  lemma ApplyRemembers(w: World, mode: Mode, st0: PState, p: Prim, st: PState)
    requires Remembers(st0, st)
    ensures Remembers(st0, Apply(w, mode, p, st))
  {
    match p case Set(_, _) => case Unknown(_, _) => case Fail(_, _) => case Halt(_) =>
  }

  // ----- Independence of values under SET_FLAGS_VALUE -----

  /** Whether SET_FLAGS_VALUE accepts `text` for a flag: a matter of type and validator only. */
  predicate Accepts(w: World, name: string, f: FlagState, text: string) {
    TryParse(w.validators, name, f.validator, TypeOf(f.current), text).Accepted?
  }

  function AcceptedValue(w: World, name: string, f: FlagState, text: string): Value
    requires Accepts(w, name, f, text)
  {
    TryParse(w.validators, name, f.validator, TypeOf(f.current), text).value
  }

  lemma SetValue(w: World, name: string, f: FlagState, text: string)
    ensures var r := SetFlag(w.validators, name, f, text, SetFlagsValue);
            if Accepts(w, name, f, text)
            then r == SetResult(f.(current := AcceptedValue(w, name, f, text), modified := true), Text.None)
            else r == SetResult(Touch(f), Text.Some(TryParse(w.validators, name, f.validator,
                                                        TypeOf(f.current), text).error))
  {
  }

  lemma StringAccepted(w: World, name: string, f: FlagState, text: string)
    requires TypeOf(f.current) == FvString && Accepts(w, name, f, text)
    ensures AcceptedValue(w, name, f, text) == StringValue(text)
  {
  }

  predicate SameShape(a: FlagState, b: FlagState) {
    && TypeOf(a.current) == TypeOf(b.current) && TypeOf(a.defvalue) == TypeOf(b.defvalue)
    && a.validator == b.validator
  }

  /** The same flags with the same types and validators, but possibly other values. */
  ghost predicate SameShapes(a: FlagTable, b: FlagTable) {
    a.Keys == b.Keys && forall n | n in a :: SameShape(a[n], b[n])
  }

  /** Two parses that have done the same since their traces were `a` and `b`. */
  ghost predicate InStep(a: seq<Prim>, b: seq<Prim>, s: PState, t: PState) {
    && SameShapes(s.flags, t.flags)
    && s.stop == t.stop
    && a <= s.trace && b <= t.trace && s.trace[|a|..] == t.trace[|b|..]
  }

  lemma SameSig(a: FlagTable, b: FlagTable)
    requires SameShapes(a, b)
    ensures Sig(a) == Sig(b)
  {
  }

  lemma SameShapeAccepts(w: World, name: string, f: FlagState, g: FlagState)
    requires SameShape(f, g)
    ensures forall text :: Accepts(w, name, f, text) == Accepts(w, name, g, text)
    ensures forall text | Accepts(w, name, f, text) ::
      AcceptedValue(w, name, f, text) == AcceptedValue(w, name, g, text)
  {
  }

  lemma KeptWellFormed(mode: Mode, st0: PState, st: PState)
    requires KeepsFlags(mode, st0, st)
    ensures WellFormed(st.flags)
  {
  }

  lemma KeptShapes(mode: Mode, st0: PState, st: PState)
    requires WellFormed(st0.flags) && KeepsFlags(mode, st0, st)
    ensures SameShapes(st0.flags, st.flags)
  {
    forall n | n in st.flags ensures SameShape(st0.flags[n], st.flags[n]) {
      assert st0.flags[n].WellTyped() && st.flags[n].WellTyped();
    }
  }

  lemma ApplyInStep(w: World, p: Prim, a: seq<Prim>, b: seq<Prim>, s: PState, t: PState)
    requires InStep(a, b, s, t)
    ensures InStep(a, b, Apply(w, SetFlagsValue, p, s), Apply(w, SetFlagsValue, p, t))
  {
    var s1, t1 := Apply(w, SetFlagsValue, p, s), Apply(w, SetFlagsValue, p, t);
    assert s1.trace[|a|..] == s.trace[|a|..] + [p];
    assert t1.trace[|b|..] == t.trace[|b|..] + [p];
    if p.Set? && p.name in s.flags {
      SetValue(w, p.name, s.flags[p.name], p.text);
      SetValue(w, p.name, t.flags[p.name], p.text);
      assert SameShape(s.flags[p.name], t.flags[p.name]);
    }
  }

  /** An assignment under SET_FLAGS_VALUE leaves the references in its own text, whatever the flag
      held before. */
  lemma PendingInStep(w: World, a: Flagfile.Assign, s: PState, t: PState)
    requires SameShapes(s.flags, t.flags) && a.name in s.flags
    ensures Pending(w, SetFlagsValue, a, s) == Pending(w, SetFlagsValue, a, t)
  {
    SetValue(w, a.name, s.flags[a.name], a.text);
    SetValue(w, a.name, t.flags[a.name], a.text);
    assert SameShape(s.flags[a.name], t.flags[a.name]);
  }

  lemma {:induction false} RunAssignsInStep(
      w: World, depth: nat, assigns: seq<Flagfile.Assign>, a: seq<Prim>, b: seq<Prim>, s: PState, t: PState)
    requires InStep(a, b, s, t)
    ensures InStep(a, b, RunAssigns(w, depth, SetFlagsValue, assigns, s),
                         RunAssigns(w, depth, SetFlagsValue, assigns, t))
    decreases depth, 1, |assigns|
  {
    if assigns != [] && s.stop == Running {
      var x := assigns[0];
      if x.name !in s.flags {
        RunAssignsInStep(w, depth, assigns[1..], a, b, s, t);
      } else {
        PendingInStep(w, x, s, t);
        ApplyInStep(w, Set(x.name, x.text), a, b, s, t);
        ApplyInStep(w, Halt(Exited), a, b, Apply(w, SetFlagsValue, Set(x.name, x.text), s),
                                           Apply(w, SetFlagsValue, Set(x.name, x.text), t));
        var s1, t1 := SetStep(w, SetFlagsValue, x, s), SetStep(w, SetFlagsValue, x, t);
        var refs := StepRefs(w, SetFlagsValue, x, s);
        RunRefsInStep(w, depth, refs, a, b, s1, t1);
        RunAssignsInStep(w, depth, assigns[1..], a, b, RunRefs(w, depth, SetFlagsValue, refs, s1),
                                                       RunRefs(w, depth, SetFlagsValue, refs, t1));
      }
    }
  }

  lemma {:induction false} RunRefsInStep(
      w: World, depth: nat, refs: seq<Ref>, a: seq<Prim>, b: seq<Prim>, s: PState, t: PState)
    requires InStep(a, b, s, t)
    ensures InStep(a, b, RunRefs(w, depth, SetFlagsValue, refs, s),
                         RunRefs(w, depth, SetFlagsValue, refs, t))
    decreases depth, 0, |refs|
  {
    if refs != [] && s.stop == Running {
      FollowInStep(w, depth, refs[0], a, b, s, t);
      RunRefsInStep(w, depth, refs[1..], a, b, Follow(w, depth, SetFlagsValue, refs[0], s),
                                               Follow(w, depth, SetFlagsValue, refs[0], t));
    }
  }

  lemma {:induction false} FollowInStep(
      w: World, depth: nat, ref: Ref, a: seq<Prim>, b: seq<Prim>, s: PState, t: PState)
    requires InStep(a, b, s, t)
    ensures InStep(a, b, Follow(w, depth, SetFlagsValue, ref, s),
                         Follow(w, depth, SetFlagsValue, ref, t))
    decreases depth, 0, 0
  {
    SameSig(s.flags, t.flags);
    match Expand(w, Sig(s.flags), ref) {
      case Nothing =>
      case Note(p) => ApplyInStep(w, p, a, b, s, t);
      case Assigns(inner) =>
        if depth == 0 {
          ApplyInStep(w, Halt(Overflowed), a, b, s, t);
        } else {
          RunAssignsInStep(w, depth - 1, inner, a, b, s, t);
        }
    }
  }

  // ----- The last accepted assignment wins -----

  /** The value of flag `name` after `ps`: that of the last accepted assignment to it, or `f`'s own. */
  function LastAccepted(w: World, name: string, f: FlagState, ps: seq<Prim>): Value {
    if ps == [] then f.current
    else
      var p := ps[|ps| - 1];
      if p.Set? && p.name == name && Accepts(w, name, f, p.text) then AcceptedValue(w, name, f, p.text)
      else LastAccepted(w, name, f, ps[..|ps| - 1])
  }

  /** Whether `ps` sets `name`, and whether it does so successfully. */
  predicate Sets(name: string, ps: seq<Prim>) {
    ps != [] && (
      var p := ps[|ps| - 1];
      (p.Set? && p.name == name) || Sets(name, ps[..|ps| - 1]))
  }

  predicate SetsWell(w: World, name: string, f: FlagState, ps: seq<Prim>) {
    ps != [] && (
      var p := ps[|ps| - 1];
      (p.Set? && p.name == name && Accepts(w, name, f, p.text)) || SetsWell(w, name, f, ps[..|ps| - 1]))
  }

  /** The state of one flag after a run of primitives under SET_FLAGS_VALUE. The modified bit rises
      with an accepted assignment, and also with a refused one if the value had been changed behind
      the API's back. */
  lemma {:induction false} FlagAfter(w: World, name: string, ps: seq<Prim>, st: PState)
    requires name in st.flags && st.flags[name].WellTyped()
    ensures var r := ApplyAll(w, SetFlagsValue, ps, st);
            r.flags.Keys == st.flags.Keys && r.flags[name] == After(w, name, ps, st.flags[name])
  {
    if ps != [] {
      var qs, p := ps[..|ps| - 1], ps[|ps| - 1];
      FlagAfter(w, name, qs, st);
      var g := After(w, name, qs, st.flags[name]);
      if p.Set? && p.name == name { SetValue(w, name, g, p.text); }
      AfterStep(w, name, ps, st.flags[name]);
    }
  }

  function After(w: World, name: string, ps: seq<Prim>, f: FlagState): FlagState {
    FlagState(
      LastAccepted(w, name, f, ps),
      f.defvalue,
      f.modified || SetsWell(w, name, f, ps) || (Sets(name, ps) && f.current != f.defvalue),
      f.validator)
  }

  /** One more primitive: another flag's, an accepted one, a refused one. */
  lemma AfterStep(w: World, name: string, ps: seq<Prim>, f: FlagState)
    requires ps != [] && f.WellTyped()
    ensures var qs, p := ps[..|ps| - 1], ps[|ps| - 1];
            var g := After(w, name, qs, f);
            && TypeOf(g.current) == TypeOf(f.current)
            && After(w, name, ps, f) ==
                 if !(p.Set? && p.name == name) then g
                 else if Accepts(w, name, f, p.text)
                 then g.(current := AcceptedValue(w, name, f, p.text), modified := true)
                 else Touch(g)
  {
    var qs := ps[..|ps| - 1];
    LastAcceptedTyped(w, name, f, qs);
    if !SetsWell(w, name, f, qs) { NoneAccepted(w, name, f, qs); }
  }

  lemma {:induction false} LastAcceptedTyped(w: World, name: string, f: FlagState, ps: seq<Prim>)
    ensures TypeOf(LastAccepted(w, name, f, ps)) == TypeOf(f.current)
  {
    if ps != [] { LastAcceptedTyped(w, name, f, ps[..|ps| - 1]); }
  }

  lemma {:induction false} NoneAccepted(w: World, name: string, f: FlagState, ps: seq<Prim>)
    requires !SetsWell(w, name, f, ps)
    ensures LastAccepted(w, name, f, ps) == f.current
  {
    if ps != [] {
      NoneAccepted(w, name, f, ps[..|ps| - 1]);
    }
  }
}
