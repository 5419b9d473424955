/** What becomes of the recorded errors: ValidateFlags and ReportErrors, on values. */
module ErrorReports {
  import opened Text
  import Values
  import opened Flags
  import Names
  import opened Engine
  import opened ParseProofs

  type Errors = map<string, Option<Error>>

  // ----- ReportErrors -----

  /** --undefok lists the undefined name `k`, or its positive form if that is not itself undefined. */
  predicate UndefOk(undefined: set<string>, list: seq<string>, k: string) {
    k in undefined &&
    exists i | 0 <= i < |list| :: list[i] == k || (list[i] !in undefined && "no" + list[i] == k)
  }

  predicate Excused(undefined: set<string>, list: seq<string>, reparse: bool, k: string) {
    k in undefined && (reparse || UndefOk(undefined, list, k))
  }

  function ClearAll(errors: Errors, undefined: set<string>, list: seq<string>, reparse: bool): Errors {
    map k | k in errors.Keys + undefined && (k in errors || Excused(undefined, list, reparse, k)) ::
      if Excused(undefined, list, reparse, k) then None else errors[k]
  }

  predicate AnyError(errors: Errors) {
    exists k | k in errors :: errors[k].Some?
  }

  /** The flag name whose error one --undefok entry clears. */
  function ClearedBy(undefined: set<string>, entry: string): Option<string> {
    if entry in undefined then Some(entry)
    else if "no" + entry in undefined then Some("no" + entry)
    else None
  }

  lemma UndefOkStep(undefined: set<string>, list: seq<string>, k: string, i: nat)
    requires i < |list|
    ensures UndefOk(undefined, list[..i + 1], k) <==>
            UndefOk(undefined, list[..i], k) || ClearedBy(undefined, list[i]) == Some(k)
  {
    var longer, shorter := list[..i + 1], list[..i];
    assert longer == shorter + [list[i]];
    if UndefOk(undefined, shorter, k) {
      var j :| 0 <= j < i && (shorter[j] == k || (shorter[j] !in undefined && "no" + shorter[j] == k));
      assert longer[j] == shorter[j];
    }
    if ClearedBy(undefined, list[i]) == Some(k) {
      assert longer[i] == list[i];
    }
    if UndefOk(undefined, longer, k) {
      var j :| 0 <= j <= i && (longer[j] == k || (longer[j] !in undefined && "no" + longer[j] == k));
      assert j < i ==> shorter[j] == longer[j];
    }
  }

  /** One --undefok entry clears at most one error. */
  lemma ClearStep(errors: Errors, undefined: set<string>, list: seq<string>, i: nat)
    requires i < |list|
    ensures var before := ClearAll(errors, undefined, list[..i], false);
            ClearAll(errors, undefined, list[..i + 1], false) ==
              match ClearedBy(undefined, list[i])
              case None => before
              case Some(k) => before[k := None]
  {
    hide UndefOk;
    forall k { UndefOkStep(undefined, list, k, i); }
    var before, after := ClearAll(errors, undefined, list[..i], false), ClearAll(errors, undefined, list[..i + 1], false);
    var cleared := ClearedBy(undefined, list[i]);
    assert cleared.Some? ==> cleared.value in undefined;
    assert after.Keys == (match cleared case None => before.Keys case Some(k) => before.Keys + {k});
  }

  lemma ClearNone(errors: Errors, undefined: set<string>)
    ensures ClearAll(errors, undefined, [], false) == errors
  {
    assert forall k :: !UndefOk(undefined, [], k);
  }

  /** With reparsing allowed, every undefined name is cleared in turn; `todo` is still to come. */
  function ClearedBut(errors: Errors, undefined: set<string>, todo: set<string>): Errors {
    map k | k in errors.Keys + (undefined - todo) ::
      if k in undefined && k !in todo then None else errors[k]
  }

  lemma ClearedForReparse(errors: Errors, undefined: set<string>, list: seq<string>)
    ensures ClearedBut(errors, undefined, undefined) == errors
    ensures ClearedBut(ClearAll(errors, undefined, list, false), undefined, {})
         == ClearAll(errors, undefined, list, true)
  {
    hide UndefOk;
    var before := ClearAll(errors, undefined, list, false);
    assert ClearedBut(before, undefined, {}).Keys == ClearAll(errors, undefined, list, true).Keys;
  }

  lemma ClearedButStep(errors: Errors, undefined: set<string>, todo: set<string>, k: string)
    requires k in todo && todo <= undefined
    ensures ClearedBut(errors, undefined, todo - {k}) == ClearedBut(errors, undefined, todo)[k := None]
  {
  }

  /** Only errors about unknown names can be excused; an illegal or invalid value, a missing argument
      or a missing environment variable never is. */
  lemma OnlyNameErrorsExcused(st: PState, list: seq<string>, reparse: bool, k: string)
    requires SoundErrors(st) && k in st.errors && Excused(st.undefined, list, reparse, k)
    ensures Names.FindFlag(Sig(st.flags), k).None? && IsNameError(st.errors[k].value)
  {
    hide Names.FindFlag, Sig;
  }

  /** Allowing a flag excuses its negation only when the flag itself is not complained about. */
  lemma UndefOkOnce(undefined: set<string>, entry: string)
    ensures UndefOk(undefined, [entry], entry) ==> !UndefOk(undefined, [entry], "no" + entry)
  {
    assert |"no" + entry| == |entry| + 2;
  }

  // ----- ValidateFlags -----

  /** ValidateFlags complains about this flag. */
  predicate FailsValidation(w: World, all: bool, flags: FlagTable, n: string) {
    && n in flags && (all || !flags[n].modified)
    && !Validates(w.validators, n, flags[n].validator, flags[n].current)
  }

  /** An error already recorded is left as it is. */
  function Validated(w: World, all: bool, flags: FlagTable, errors: Errors): Errors {
    map k | k in errors.Keys + flags.Keys &&
            (k in errors || FailsValidation(w, all, flags, k)) ::
      if FailsValidation(w, all, flags, k) && (k !in errors || errors[k].None?)
      then Some(MustBeSet(!flags[k].modified))
      else errors[k]
  }

  /** The flags already visited are all but those in `todo`; visiting one more. */
  lemma ValidatedStep(w: World, all: bool, flags: FlagTable, todo: set<string>, errors: Errors, n: string)
    requires n in todo && todo <= flags.Keys
    ensures var before := Validated(w, all, flags - todo, errors);
            Validated(w, all, flags - (todo - {n}), errors) ==
              if FailsValidation(w, all, flags, n) && (n !in before || before[n].None?)
              then before[n := Some(MustBeSet(!flags[n].modified))] else before
  {
    hide FailsValidation, Validated;
    var before, after := flags - todo, flags - (todo - {n});
    FailsWithin(w, all, flags, todo);
    FailsWithin(w, all, flags, todo - {n});
    assert after == before[n := flags[n]];
    ValidatedOne(w, all, before, n, flags[n], errors);
    assert FailsValidation(w, all, after, n) <==> FailsValidation(w, all, flags, n);
  }

  /** Whether a flag fails does not depend on the other flags. */
  lemma FailsWithin(w: World, all: bool, flags: FlagTable, todo: set<string>)
    ensures forall k :: FailsValidation(w, all, flags - todo, k) <==>
      k !in todo && FailsValidation(w, all, flags, k)
  {
    hide Validates;
  }

  /** One more flag in the table. */
  lemma ValidatedOne(w: World, all: bool, flags: FlagTable, n: string, f: FlagState, errors: Errors)
    requires n !in flags
    ensures var v := Validated(w, all, flags, errors);
            Validated(w, all, flags[n := f], errors) ==
              if FailsValidation(w, all, flags[n := f], n) && (n !in v || v[n].None?)
              then v[n := Some(MustBeSet(!f.modified))] else v
  {
    hide Validates;
    var v, v2 := Validated(w, all, flags, errors), Validated(w, all, flags[n := f], errors);
    assert v2.Keys == v.Keys + (if FailsValidation(w, all, flags[n := f], n) then {n} else {});
  }

  lemma ValidatedEnds(w: World, all: bool, flags: FlagTable, errors: Errors)
    ensures Validated(w, all, flags - flags.Keys, errors) == errors
    ensures flags - {} == flags
  {
  }

  lemma ValidatedSound(w: World, all: bool, st: PState)
    requires WellFormed(st.flags) && SoundErrors(st)
    ensures SoundErrors(st.(errors := Validated(w, all, st.flags, st.errors)))
    ensures forall n | FailsValidation(w, all, st.flags, n) ::
      var e := Validated(w, all, st.flags, st.errors); n in e && e[n].Some?
  {
    hide WellFormed, Validates;
    forall n | n in st.flags ensures Names.FindFlag(Sig(st.flags), n) == Some(n) {
      assert n in Sig(st.flags);
    }
  }

  // ----- Refused assignments always surface -----

  /** A refused assignment in the trace leaves an error under the flag's name. */
  lemma {:induction false} RefusedLeavesError(w: World, ps: seq<Prim>, st: PState, i: nat)
    requires i < |ps| && ps[i].Set? && ps[i].name in st.flags
    requires !Accepts(w, ps[i].name, st.flags[ps[i].name], ps[i].text)
    requires forall n | n in st.flags :: st.flags[n].WellTyped()
    ensures var r := ApplyAll(w, SetFlagsValue, ps, st);
            ps[i].name in r.errors && r.errors[ps[i].name].Some?
  {
    hide Accepts, Apply;
    var qs, p := ps[..|ps| - 1], ps[|ps| - 1];
    var r := ApplyAll(w, SetFlagsValue, qs, st);
    if i < |qs| {
      RefusedLeavesError(w, qs, st, i);
      ErrorStays(w, p, r, ps[i].name);
    } else {
      FlagAfter(w, p.name, qs, st);
      LastAcceptedTyped(w, p.name, st.flags[p.name], qs);
      RefusedNow(w, p, st.flags[p.name], r);
    }
  }

  lemma ErrorStays(w: World, p: Prim, st: PState, k: string)
    requires k in st.errors && st.errors[k].Some?
    ensures var r := Apply(w, SetFlagsValue, p, st); k in r.errors && r.errors[k].Some?
  {
    hide SetFlag;
  }

  lemma RefusedNow(w: World, p: Prim, f: FlagState, st: PState)
    requires p.Set? && p.name in st.flags && !Accepts(w, p.name, f, p.text)
    requires Values.TypeOf(st.flags[p.name].current) == Values.TypeOf(f.current)
    requires st.flags[p.name].validator == f.validator
    ensures var r := Apply(w, SetFlagsValue, p, st); p.name in r.errors && r.errors[p.name].Some?
  {
    hide TryParse, SetFlag;
    SetValue(w, p.name, st.flags[p.name], p.text);
  }

  // ----- After a parse without unexcused errors -----

  /** Every attempt of the trace was accepted. */
  ghost predicate AllAccepted(w: World, ps: seq<Prim>, flags: FlagTable) {
    forall i | 0 <= i < |ps| && ps[i].Set? && ps[i].name in flags ::
      Accepts(w, ps[i].name, flags[ps[i].name], ps[i].text)
  }

  lemma NoErrorAllAccepted(w: World, st0: PState, st: PState, list: seq<string>, reparse: bool)
    requires WellFormed(st0.flags) && Replays(w, SetFlagsValue, st0, st) && SoundErrors(st)
    requires st.flags.Keys == st0.flags.Keys
    requires !AnyError(ClearAll(st.errors, st.undefined, list, reparse))
    ensures AllAccepted(w, st.trace[|st0.trace|..], st0.flags)
  {
    hide Accepts, ApplyAll, WellFormed;
    var ps := st.trace[|st0.trace|..];
    forall i | 0 <= i < |ps| && ps[i].Set? && ps[i].name in st0.flags
      ensures Accepts(w, ps[i].name, st0.flags[ps[i].name], ps[i].text)
    {
      var n := ps[i].name;
      if !Accepts(w, n, st0.flags[n], ps[i].text) {
        AllTyped(st0.flags);
        RefusedLeavesError(w, ps, st0, i);
        KnownNotUndefined(st, n);
        ErrorSurvives(st.errors, st.undefined, list, reparse, n);
      }
    }
  }

  lemma ErrorSurvives(errors: Errors, undefined: set<string>, list: seq<string>, reparse: bool, n: string)
    requires n in errors && errors[n].Some? && n !in undefined
    ensures AnyError(ClearAll(errors, undefined, list, reparse))
  {
    assert ClearAll(errors, undefined, list, reparse)[n].Some?;
  }

  lemma AllTyped(flags: FlagTable)
    requires WellFormed(flags)
    ensures forall n | n in flags :: flags[n].WellTyped()
  {
  }

  lemma KnownNotUndefined(st: PState, n: string)
    requires SoundErrors(st) && n in st.flags && n in st.errors
    ensures n !in st.undefined
  {
    assert Names.FindFlag(Sig(st.flags), n) == Some(n);
  }

  /** When ValidateUnmodifiedFlags ran and no unexcused error is left, a flag that was unmodified before the
      parse satisfies its validator. */
  lemma CleanParseValidates(
      w: World, st0: PState, st: PState, list: seq<string>, reparse: bool, n: string)
    requires WellFormed(st0.flags) && Replays(w, SetFlagsValue, st0, st)
    requires SoundErrors(st) && WellFormed(st.flags) && st.flags.Keys == st0.flags.Keys
    requires var errors := Validated(w, false, st.flags, st.errors);
             !AnyError(ClearAll(errors, st.undefined, list, reparse))
    requires n in st0.flags && !st0.flags[n].modified
    ensures Validates(w.validators, n, st.flags[n].validator, st.flags[n].current)
  {
    hide ApplyAll, LastAccepted, SetsWell, Sets, Accepts, WellFormed, Validates, SoundErrors;
    var ps := st.trace[|st0.trace|..];
    AllTyped(st0.flags);
    FlagAfter(w, n, ps, st0);
    if !st.flags[n].modified {
      ValidatedSound(w, false, st);
      UnmodifiedValidates(w, st, list, reparse, n);
    } else {
      ValidatedKeepsErrors(w, st, list, reparse);
      NoErrorAllAccepted(w, st0, st, list, reparse);
      AcceptedValidates(w, n, st0.flags[n], ps, st0.flags);
    }
  }

  lemma UnmodifiedValidates(w: World, st: PState, list: seq<string>, reparse: bool, n: string)
    requires SoundErrors(st) && WellFormed(st.flags) && n in st.flags && !st.flags[n].modified
    requires var errors := Validated(w, false, st.flags, st.errors);
             !AnyError(ClearAll(errors, st.undefined, list, reparse))
    ensures Validates(w.validators, n, st.flags[n].validator, st.flags[n].current)
  {
    hide Validates, WellFormed, SoundErrors;
    if FailsValidation(w, false, st.flags, n) {
      ValidatedSound(w, false, st);
      var e := Validated(w, false, st.flags, st.errors);
      KnownNotUndefined(st.(errors := e), n);
      ErrorSurvives(e, st.undefined, list, reparse, n);
    }
  }

  lemma ValidatedKeepsErrors(w: World, st: PState, list: seq<string>, reparse: bool)
    requires !AnyError(ClearAll(Validated(w, false, st.flags, st.errors), st.undefined, list, reparse))
    ensures !AnyError(ClearAll(st.errors, st.undefined, list, reparse))
  {
    hide Excused, FailsValidation;
    var e := Validated(w, false, st.flags, st.errors);
    forall k | k in st.errors
      ensures ClearAll(st.errors, st.undefined, list, reparse)[k].None?
    {
      assert ClearAll(e, st.undefined, list, reparse)[k].None?;
    }
  }

  /** If something was set and nothing refused, the last accepted value validates. */
  lemma {:induction false} AcceptedValidates(
      w: World, n: string, f: FlagState, ps: seq<Prim>, flags: FlagTable)
    requires n in flags && flags[n] == f && AllAccepted(w, ps, flags)
    requires Sets(n, ps) || SetsWell(w, n, f, ps)
    ensures Validates(w.validators, n, f.validator, LastAccepted(w, n, f, ps))
  {
    hide Accepts, AcceptedValue, Validates;
    var p := ps[|ps| - 1];
    if p.Set? && p.name == n {
      assert Accepts(w, n, f, p.text);
      AcceptedValueValidates(w, n, f, p.text);
    } else {
      AcceptedValidates(w, n, f, ps[..|ps| - 1], flags);
    }
  }

  lemma AcceptedValueValidates(w: World, n: string, f: FlagState, text: string)
    requires Accepts(w, n, f, text)
    ensures Validates(w.validators, n, f.validator, AcceptedValue(w, n, f, text))
  {
    hide Values.ParseValue;
  }
}
