/** One flag as a value: what the set modes, direct writes and validators do to it, and what
    every run of such operations keeps. */
module Flags {
  import opened Text
  import opened Values

  /** The address of a validator function. */
  type FnPtr = nat

  /** What a validator answers for a flag name and a value; validators are pure. */
  type Validators = (FnPtr, string, Value) -> bool

  datatype Mode = SetFlagsValue | SetFlagIfDefault | SetFlagsDefault

  datatype FlagState = FlagState(
    current: Value,
    defvalue: Value,
    modified: bool,
    validator: Option<FnPtr>)
  {
    predicate WellTyped() {
      TypeOf(current) == TypeOf(defvalue)
    }
  }

  datatype Error =
    | UnknownFlag                                  // no such flag
    | BoolForNonBool(actual: FlagType)             // --nox for a flag x that is not boolean
    | UnknownInEnvList                             // unknown name in --fromenv or --tryfromenv
    | IllegalValue(text: string)
    | FailedValidation(rejected: Value)
    | MissingArgument(arg: string)
    | NotInEnvironment(envname: string)
    | EnvRecursion(envval: string)
    | MustBeSet(isDefault: bool)

  datatype Parsed = Accepted(value: Value) | Refused(error: Error)

  /** CommandLineFlag::Validate */
  predicate Validates(ok: Validators, name: string, validator: Option<FnPtr>, v: Value) {
    validator.None? || ok(validator.value, name, v)
  }

  /** TryParseLocked: the value `text` denotes for a target of type `t`, or the error message. */
  function TryParse(ok: Validators, name: string, validator: Option<FnPtr>, t: FlagType, text: string): Parsed
  {
    match ParseValue(t, text)
    case None => Refused(IllegalValue(text))
    case Some(v) =>
      if Validates(ok, name, validator, v) then Accepted(v) else Refused(FailedValidation(v))
  }

  /** UpdateModifiedBit */
  function Touch(f: FlagState): FlagState {
    if !f.modified && f.current != f.defvalue then f.(modified := true) else f
  }

  datatype SetResult = SetResult(flag: FlagState, error: Option<Error>)

  /** FlagRegistry::SetFlagLocked */
  function SetFlag(ok: Validators, name: string, f: FlagState, text: string, mode: Mode): SetResult {
    var g := Touch(f);
    match mode
    case SetFlagsValue => SetCurrent(ok, name, g, text)
    case SetFlagIfDefault =>
      if g.modified then SetResult(g, None) else SetCurrent(ok, name, g, text)
    case SetFlagsDefault => (
      match TryParse(ok, name, g.validator, TypeOf(g.defvalue), text)
      case Refused(e) => SetResult(g, Some(e))
      case Accepted(v) =>
        var h := g.(defvalue := v);
        if h.modified then SetResult(h, None)
        else
          match TryParse(ok, name, h.validator, TypeOf(h.current), text)
          case Refused(_) => SetResult(h, None)
          case Accepted(u) => SetResult(h.(current := u), None))
  }

  function SetCurrent(ok: Validators, name: string, g: FlagState, text: string): SetResult {
    match TryParse(ok, name, g.validator, TypeOf(g.current), text)
    case Refused(e) => SetResult(g, Some(e))
    case Accepted(v) => SetResult(g.(current := v, modified := true), None)
  }

  /** AddFlagValidator on a flag that was found: the new validator and the answer. */
  function AddValidator(f: FlagState, fn: Option<FnPtr>): (FlagState, bool) {
    if fn == f.validator then (f, true)
    else if fn.Some? && f.validator.Some? then (f, false)
    else (f.(validator := fn), true)
  }

  // ----- One set operation -----

  /** A set is refused exactly when it tries to parse and the text is illegal or fails validation;
      then both values stay, though the modified bit may be brought up to date. */
  lemma RejectedSetKeepsValues(ok: Validators, name: string, f: FlagState, text: string, mode: Mode)
    requires f.WellTyped()
    ensures var r := SetFlag(ok, name, f, text, mode);
            && (r.error.Some? <==>
                  && (mode == SetFlagIfDefault ==> !f.modified && f.current == f.defvalue)
                  && TryParse(ok, name, f.validator, TypeOf(f.current), text).Refused?)
            && (r.error.Some? ==> r.flag == Touch(f))
            && (r.error.Some? ==>
                  match ParseValue(TypeOf(f.current), text)
                  case None => r.error == Some(IllegalValue(text))
                  case Some(v) =>
                    && r.error == Some(FailedValidation(v))
                    && f.validator.Some? && !ok(f.validator.value, name, v))
            && (r.error.Some? ==> (r.flag == f <==> f.modified || f.current == f.defvalue))
  {
  }

  /** SET_FLAGS_VALUE accepts exactly the texts of the flag's type that its validator, if any, agrees to. */
  lemma SetAcceptsExactly(ok: Validators, name: string, f: FlagState, text: string)
    ensures var r := SetFlag(ok, name, f, text, SetFlagsValue);
            var v := ParseValue(TypeOf(f.current), text);
            && (r.error.None? <==> v.Some? && (f.validator.Some? ==> ok(f.validator.value, name, v.value)))
            && (r.error.None? ==> r.flag.current == v.value && r.flag.modified)
  {
    hide ParseValue;
  }

  /** A flag takes a first validator and gives it up for NULL. The one it has may be given again; another is
      refused and changes nothing. */
  lemma ValidatorRules(f: FlagState, a: FnPtr, b: FnPtr)
    ensures f.validator.None? ==> AddValidator(f, Some(a)) == (f.(validator := Some(a)), true)
    ensures f.validator == Some(a) ==> AddValidator(f, Some(a)) == (f, true)
    ensures f.validator == Some(a) && a != b ==> AddValidator(f, Some(b)) == (f, false)
    ensures AddValidator(f, None) == (f.(validator := None), true)
  {
  }

  /** A refused set that raises the modified bit: the value had been written behind the API's back. */
  lemma RefusedSetRaisesBit(ok: Validators, name: string)
    ensures var f := FlagState(BoolValue(true), BoolValue(false), false, None);
            var r := SetFlag(ok, name, f, "maybe", SetFlagsValue);
            r.error == Some(IllegalValue("maybe")) && r.flag == f.(modified := true)
  {
    assert forall i | 0 <= i < |TRUE_WORDS| :: |TRUE_WORDS[i]| != 5 || TRUE_WORDS[i][0] == 'm';
    assert ToLower('m') == 'm';
    assert !Among("maybe", TRUE_WORDS);
    assert EqualIgnoringCase("maybe", FALSE_WORDS[2]) ==> ToLower("maybe"[0]) == ToLower(FALSE_WORDS[2][0]);
    assert !Among("maybe", FALSE_WORDS);
  }

  /** What an accepted set does in each mode. SET_FLAG_IF_DEFAULT acts only on a flag that nobody
      changed, by the API or behind its back; SET_FLAGS_DEFAULT moves such a flag along. */
  lemma AcceptedSet(ok: Validators, name: string, f: FlagState, text: string, mode: Mode)
    requires f.WellTyped()
    requires TryParse(ok, name, f.validator, TypeOf(f.current), text).Accepted?
    ensures var r := SetFlag(ok, name, f, text, mode);
            var v := TryParse(ok, name, f.validator, TypeOf(f.current), text).value;
            var untouched := !f.modified && f.current == f.defvalue;
            && r.error.None?
            && r.flag.current == (if mode == SetFlagsValue || untouched then v else f.current)
            && r.flag.defvalue == (if mode == SetFlagsDefault then v else f.defvalue)
            && r.flag.modified == (mode == SetFlagsValue || mode == SetFlagIfDefault || !untouched)
            && r.flag.validator == f.validator
  {
  }

  // ----- Runs -----

  /** What can happen to one flag between two looks at it. */
  datatype Op =
    | SetOp(text: string, mode: Mode)
    | WriteOp(v: Value)                  // FLAGS_name = v
    | InfoOp                             // FillCommandLineFlagInfo
    | ValidatorOp(fn: Option<FnPtr>)

  predicate Typed(f: FlagState, op: Op) {
    op.WriteOp? ==> TypeOf(op.v) == TypeOf(f.current)
  }

  function Perform(ok: Validators, name: string, f: FlagState, op: Op): FlagState {
    match op
    case SetOp(text, mode) => SetFlag(ok, name, f, text, mode).flag
    case WriteOp(v) => f.(current := v)
    case InfoOp => Touch(f)
    case ValidatorOp(fn) => AddValidator(f, fn).0
  }

  function Run(ok: Validators, name: string, f: FlagState, ops: seq<Op>): FlagState {
    if ops == [] then f
    else Perform(ok, name, Run(ok, name, f, ops[..|ops| - 1]), ops[|ops| - 1])
  }

  predicate TypedRun(f: FlagState, ops: seq<Op>) {
    forall i | 0 <= i < |ops| :: Typed(f, ops[i])
  }

  lemma PerformKeepsTypesAndBit(ok: Validators, name: string, f: FlagState, op: Op)
    requires f.WellTyped() && Typed(f, op)
    ensures var g := Perform(ok, name, f, op);
            g.WellTyped() && TypeOf(g.current) == TypeOf(f.current) && (f.modified ==> g.modified)
  {
    hide ParseValue;
  }

  /** Types never change, and the modified bit never falls. */
  lemma {:induction false} RunKeepsTypesAndBit(ok: Validators, name: string, f: FlagState, ops: seq<Op>)
    requires f.WellTyped() && TypedRun(f, ops)
    ensures var g := Run(ok, name, f, ops);
            g.WellTyped() && TypeOf(g.current) == TypeOf(f.current) && (f.modified ==> g.modified)
  {
    if ops != [] {
      var last := |ops| - 1;
      hide Perform;
      RunKeepsTypesAndBit(ok, name, f, ops[..last]);
      PerformKeepsTypesAndBit(ok, name, Run(ok, name, f, ops[..last]), ops[last]);
    }
  }

  /** Right after a set or an info query, whatever happened before, a flag whose modified bit is
      down still has its default value. A direct write alone does not establish this. */
  lemma UnmodifiedMeansDefault(ok: Validators, name: string, f: FlagState, ops: seq<Op>)
    requires f.WellTyped() && TypedRun(f, ops)
    requires ops != [] && (ops[|ops| - 1].SetOp? || ops[|ops| - 1].InfoOp?)
    ensures var g := Run(ok, name, f, ops); !g.modified ==> g.current == g.defvalue
  {
    RunKeepsTypesAndBit(ok, name, f, ops[..|ops| - 1]);
  }

  /** A value is the one it was, or one that the validator accepts. */
  predicate KeptOrValid(ok: Validators, name: string, validator: Option<FnPtr>, before: Value, after: Value) {
    after == before || (validator.Some? ==> ok(validator.value, name, after))
  }

  ghost predicate OnlyValidChanges(ok: Validators, name: string, f: FlagState, g: FlagState) {
    && g.validator == f.validator
    && TypeOf(g.current) == TypeOf(f.current) && TypeOf(g.defvalue) == TypeOf(f.defvalue)
    && KeptOrValid(ok, name, f.validator, f.current, g.current)
    && KeptOrValid(ok, name, f.validator, f.defvalue, g.defvalue)
  }

  lemma SetChangesValidly(ok: Validators, name: string, f: FlagState, text: string, mode: Mode)
    ensures OnlyValidChanges(ok, name, f, SetFlag(ok, name, f, text, mode).flag)
  {
    hide ParseValue;
  }

  /** Without direct writes and validator changes, every run of sets in any modes leaves each of the two
      values as it was or makes it one that the validator accepts, even if they fail it at the start. */
  lemma {:induction false} SetsKeepValidity(ok: Validators, name: string, f: FlagState, ops: seq<Op>)
    requires forall i | 0 <= i < |ops| :: ops[i].SetOp? || ops[i].InfoOp?
    ensures OnlyValidChanges(ok, name, f, Run(ok, name, f, ops))
  {
    if ops != [] {
      var last := |ops| - 1;
      SetsKeepValidity(ok, name, f, ops[..last]);
      if ops[last].SetOp? {
        SetChangesValidly(ok, name, Run(ok, name, f, ops[..last]), ops[last].text, ops[last].mode);
      }
      hide SetFlag;
    }
  }

  /** Once a value was set by SET_FLAGS_VALUE, no later SET_FLAG_IF_DEFAULT or SET_FLAGS_DEFAULT,
      and no later rejected set, changes the current value. */
  lemma {:induction false} ExplicitValueSticks(
      ok: Validators, name: string, f: FlagState, text: string, ops: seq<Op>)
    requires f.WellTyped()
    requires SetFlag(ok, name, f, text, SetFlagsValue).error.None?
    requires forall i | 0 <= i < |ops| ::
      ops[i].InfoOp? || (ops[i].SetOp? && ops[i].mode != SetFlagsValue)
    ensures var g := SetFlag(ok, name, f, text, SetFlagsValue).flag;
            Run(ok, name, g, ops).current == g.current && Run(ok, name, g, ops).modified
  {
    if ops != [] { ExplicitValueSticks(ok, name, f, text, ops[..|ops| - 1]); }
  }
}
