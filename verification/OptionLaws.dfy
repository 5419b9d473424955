/** What the documentation says about the options themselves, at their literal spelling. */
module OptionLaws {
  import opened Text
  import Values
  import ValueProofs
  import opened Flags
  import opened Names
  import opened Flagfile
  import opened Engine
  import opened ParseProofs
  import opened Argv
  import References
  import ErrorReports
  import InliningAnywhere
  import ParserSteps
  import FlagfileLaws
  import opened CommandLine

  // ----- The shape of an argument -----

  /** Only "--" ends the flags; only the empty argument, "-" and what does not begin with a dash are program
      arguments. */
  lemma KindsExactly(sig: Signature, arg: string)
    ensures KindOf(sig, arg).Terminator? <==> arg == "--"
    ensures KindOf(sig, arg).ProgramArgument? <==> arg == "" || arg == "-" || arg[0] != '-'
  {
    hide SplitArgument;
    if |arg| >= 2 && arg[1] == '-' && arg[2..] == "" { assert arg == [arg[0], arg[1]]; }
  }

  /** One dash will do. */
  lemma OneOrTwoDashes(sig: Signature, body: string)
    requires body != "" && body[0] != '-'
    ensures KindOf(sig, "-" + body) == KindOf(sig, "--" + body)
    ensures LineAssign(sig, "-" + body) == LineAssign(sig, "--" + body)
  {
    assert ("-" + body)[1..] == body && ("--" + body)[2..] == body;
    hide SplitArgument;
  }

  /** A bare "--" that is scanned as an argument of its own ends the scan: what follows it is left alone. */
  lemma {:induction false} DoubleDashEnds(sig: Signature, before: seq<string>, after: seq<string>)
    requires !EndsMissing(ScanArgs(sig, before)) && !InliningAnywhere.Closed(sig, before)
    ensures var s, t := ScanArgs(sig, before + ["--"] + after), ScanArgs(sig, before);
            && s.events == t.events && s.scanned == t.scanned + ["--"] && t.rest == []
            && s.rest == after && s.moved == t.moved
    decreases |before|
  {
    var more := ["--"] + after;
    assert before + ["--"] + after == before + more;
    ScanDashes(sig, after);
    hide KindOf, EndsMissing;
    if before == [] {
      assert before + more == more;
    } else {
      var all := before + more;
      assert all[0] == before[0] && all[1..] == before[1..] + more;
      match KindOf(sig, before[0])
      case ProgramArgument =>
        InliningAnywhere.SameEnd(ScanArgs(sig, before), ScanArgs(sig, before[1..]));
        assert before[1..] + ["--"] + after == before[1..] + more;
        DoubleDashEnds(sig, before[1..], after);
      case NoFlag(_, _) => DashesTaken(sig, before, after, 1);
      case Complete(_) => DashesTaken(sig, before, after, 1);
      case WantsValue(_, _) =>
        if |before| == 1 {
          InliningAnywhere.OneMissing(sig, before);
        } else {
          DashesTaken(sig, before, after, 2);
        }
    }
  }

  lemma ScanDashes(sig: Signature, after: seq<string>)
    ensures ScanArgs(sig, ["--"] + after) == Scan([], ["--"], after, [])
  {
    KindsExactly(sig, "--");
    assert (["--"] + after)[1..] == after;
  }

  lemma {:induction false} DashesTaken(sig: Signature, before: seq<string>, after: seq<string>, n: nat)
    requires before != [] && TakesAt(sig, before, n) && 1 <= n <= |before|
    requires !EndsMissing(ScanArgs(sig, before)) && !InliningAnywhere.Closed(sig, before)
    ensures var s, t := ScanArgs(sig, before + (["--"] + after)), ScanArgs(sig, before);
            && s.events == t.events && s.scanned == t.scanned + ["--"] && t.rest == []
            && s.rest == after && s.moved == t.moved
    decreases |before|, 0
  {
    var more := ["--"] + after;
    hide ScanArgs, KindOf, EndsMissing, InliningAnywhere.Closed, TakesAt, TakeEvent;
    InliningAnywhere.SameTaken(sig, before, more, n);
    TakeScan(sig, before, n);
    TakeScan(sig, before + more, n);
    assert before[n..] + ["--"] + after == before[n..] + more;
    DoubleDashEnds(sig, before[n..], after);
    var t := ScanArgs(sig, before[n..]);
    assert (before + more)[..n] == before[..n];
    assert before[..n] + (t.scanned + ["--"]) == before[..n] + t.scanned + ["--"];
  }

  // ----- One option on the command line -----

  /** An argument that is complete in itself sets its flag. */
  lemma OptionSets(w: World, depth: nat, arg: string, n: string, text: string, st: PState)
    requires st.stop == Running && n in st.flags && !IsRecursive(n)
    requires KindOf(Sig(st.flags), arg) == Complete(Assign(n, text))
    ensures RunArgs(w, depth, [arg], st) == Apply(w, SetFlagsValue, Set(n, text), st)
  {
    hide KindOf, Sig, Apply, RunAssigns, SetFlag, RunArgs, ScanArgs;
    ScanOne(Sig(st.flags), arg, Assign(n, text));
    OneArgument(w, depth, arg, Assign(n, text), st);
    ParserSteps.SingleOption(w, depth, SetFlagsValue, Assign(n, text), st);
  }

  lemma OneArgument(w: World, depth: nat, arg: string, a: Assign, st: PState)
    requires st.stop == Running && ScanArgs(Sig(st.flags), [arg]).events == [Do(a)]
    ensures RunArgs(w, depth, [arg], st) == RunAssigns(w, depth, SetFlagsValue, [a], st)
  {
    hide KindOf, Sig, RunAssigns, ScanArgs;
    var events, r := [Do(a)], RunAssigns(w, depth, SetFlagsValue, [a], st);
    assert events[1..] == [] && RunEvent(w, depth, events[0], st) == r;
    assert RunEvents(w, depth, events[1..], r) == r;
  }

  lemma ScanOne(sig: Signature, arg: string, a: Assign)
    requires KindOf(sig, arg) == Complete(a)
    ensures ScanArgs(sig, [arg]).events == [Do(a)]
  {
    hide KindOf;
    assert [arg][1..] == [] && ScanArgs(sig, []).events == [];
  }

  /** --name=value and --name value. */
  lemma ValueForms(sig: Signature, name: string, value: string, more: seq<string>)
    requires name != "" && '=' !in name && FindFlag(sig, name).Some?
    ensures var flag, later := FindFlag(sig, name).value, ScanArgs(sig, more);
            && ScanArgs(sig, ["--" + (name + "=" + value)] + more).events == [Do(Assign(flag, value))] + later.events
            && (sig[flag] != Values.FvBool ==>
                  ScanArgs(sig, ["--" + name, value] + more).events == [Do(Assign(flag, value))] + later.events)
  {
    ValueKinds(sig, name, value);
    hide KindOf, FindFlag, ScanArgs;
    CompleteScan(sig, "--" + (name + "=" + value), more);
    if sig[FindFlag(sig, name).value] != Values.FvBool { WantsScan(sig, "--" + name, value, more); }
  }

  lemma CompleteScan(sig: Signature, arg: string, more: seq<string>)
    requires KindOf(sig, arg).Complete?
    ensures ScanArgs(sig, [arg] + more).events == [Do(KindOf(sig, arg).assign)] + ScanArgs(sig, more).events
  {
    hide KindOf;
    assert ([arg] + more)[0] == arg && ([arg] + more)[1..] == more;
  }

  lemma WantsScan(sig: Signature, arg: string, value: string, more: seq<string>)
    requires KindOf(sig, arg).WantsValue?
    ensures ScanArgs(sig, [arg, value] + more).events ==
      [Do(Assign(KindOf(sig, arg).flag, value))] + ScanArgs(sig, more).events
  {
    var args := [arg, value] + more;
    hide KindOf;
    assert args[0] == arg && args[1] == value && args[2..] == more;
  }

  lemma ValueKinds(sig: Signature, name: string, value: string)
    requires name != "" && '=' !in name && FindFlag(sig, name).Some?
    ensures var flag := FindFlag(sig, name).value;
            && KindOf(sig, "--" + (name + "=" + value)) == Complete(Assign(flag, value))
            && (sig[flag] != Values.FvBool ==> KindOf(sig, "--" + name) == WantsValue(name, flag))
  {
    assert ("--" + (name + "=" + value))[2..] == name + "=" + value && ("--" + name)[2..] == name;
    SplitNameValue(sig, name, value);
    SplitBare(sig, name);
    hide SplitArgument, FindFlag;
  }

  /** A flag that takes this truth value. */
  predicate TakesBool(w: World, x: string, f: FlagState, b: bool) {
    && f.WellTyped() && Values.TypeOf(f.defvalue) == Values.FvBool
    && (f.validator.Some? ==> w.validators(f.validator.value, x, Values.BoolValue(b)))
  }

  /** --x switches a boolean flag on, --nox switches it off. */
  lemma BoolOptions(w: World, depth: nat, x: string, st: PState)
    requires WellFormed(st.flags) && st.stop == Running && x in st.flags && x != "" && '=' !in x
    requires Values.TypeOf(st.flags[x].defvalue) == Values.FvBool
    ensures TakesBool(w, x, st.flags[x], true) ==>
      var r := RunArgs(w, depth, ["--" + x], st);
      r.stop == Running && r.errors == st.errors && x in r.flags && r.flags[x].current == Values.BoolValue(true)
    ensures TakesBool(w, x, st.flags[x], false) && FindFlag(Sig(st.flags), "no" + x).None? ==>
      var r := RunArgs(w, depth, ["--no" + x], st);
      r.stop == Running && r.errors == st.errors && x in r.flags && r.flags[x].current == Values.BoolValue(false)
  {
    var sig := Sig(st.flags);
    assert st.flags[x].WellTyped() && !IsRecursive(x) && FindFlag(sig, x) == Some(x) && sig[x] == Values.FvBool;
    BoolKinds(sig, x);
    hide WellFormed, Sig, KindOf, FindFlag, RunArgs, SetFlag, IsRecursive;
    if TakesBool(w, x, st.flags[x], true) {
      OptionSets(w, depth, "--" + x, x, "1", st);
      DigitWords();
      SetsBool(w, x, "1", true, st);
    }
    if TakesBool(w, x, st.flags[x], false) && FindFlag(sig, "no" + x).None? {
      OptionSets(w, depth, "--no" + x, x, "0", st);
      DigitWords();
      SetsBool(w, x, "0", false, st);
    }
  }

  lemma BoolKinds(sig: Signature, x: string)
    requires x in sig && sig[x] == Values.FvBool && x != "" && '=' !in x
    ensures KindOf(sig, "--" + x) == Complete(Assign(x, "1"))
    ensures FindFlag(sig, "no" + x).None? ==> KindOf(sig, "--no" + x) == Complete(Assign(x, "0"))
  {
    assert ("--" + x)[2..] == x && ("--no" + x)[2..] == "no" + x;
    assert FindFlag(sig, x) == Some(x);
    SplitBare(sig, x);
    if FindFlag(sig, "no" + x).None? {
      SplitNegated(sig, x, "");
      assert "no" + x + "" == "no" + x;
    }
    hide SplitArgument, FindFlag;
  }

  lemma DigitWords()
    ensures Values.ParseValue(Values.FvBool, "1") == Some(Values.BoolValue(true))
    ensures Values.ParseValue(Values.FvBool, "0") == Some(Values.BoolValue(false))
  {
    ValueProofs.BoolWords("1");
    ValueProofs.BoolWords("0");
    hide Values.ParseValue;
  }

  lemma SetsBool(w: World, x: string, text: string, b: bool, st: PState)
    requires x in st.flags && TakesBool(w, x, st.flags[x], b)
    requires Values.ParseValue(Values.FvBool, text) == Some(Values.BoolValue(b))
    ensures var r := Apply(w, SetFlagsValue, Set(x, text), st);
            && r.stop == st.stop && r.errors == st.errors && x in r.flags
            && r.flags[x].current == Values.BoolValue(b)
  {
    hide Values.ParseValue, SetFlag;
    SetAcceptsExactly(w.validators, x, st.flags[x], text);
  }

  // ----- --fromenv, --tryfromenv and --flagfile -----

  /** A usable name or file name: no empty one, none with a dash in front, a comma or a NUL. */
  predicate Plain(item: string) {
    item != "" && item[0] != '-' && ',' !in item && NUL !in item
  }

  /** `st` with one of its string flags set. */
  function WithString(st: PState, x: string, text: string): PState
    requires x in st.flags
  {
    st.(flags := st.flags[x := st.flags[x].(current := Values.StringValue(text), modified := true)],
        trace := st.trace + [Set(x, text)])
  }

  lemma RecursiveSet(w: World, depth: nat, x: string, item: string, st: PState)
    requires WellFormed(st.flags) && st.stop == Running && Plain(item)
    requires x == "fromenv" || x == "tryfromenv" || x == "flagfile"
    requires Accepts(w, x, st.flags[x], item)
    ensures var st1 := WithString(st, x, item);
            && WellFormed(st1.flags) && Sig(st1.flags) == Sig(st.flags)
            && RunAssigns(w, depth, SetFlagsValue, [Assign(x, item)], st) ==
                 Follow(w, depth, SetFlagsValue,
                   if x == "flagfile" then FileRef(item) else EnvRef(item, x == "fromenv"), st1)
  {
    FlagListRoundTrip([item]);
    hide WellFormed, Sig, RunAssigns, Follow, FlagList, TryParse;
    References.RecursiveKnown(st.flags, x);
    SetValue(w, x, st.flags[x], item);
    StringAccepted(w, x, st.flags[x], item);
    var st1 := Apply(w, SetFlagsValue, Set(x, item), st);
    SetKeepsTable(w, SetFlagsValue, Set(x, item), st);
    assert st1 == WithString(st, x, item);
    ParserSteps.SingleOption(w, depth, SetFlagsValue, Assign(x, item), st);
    ParserSteps.ListStart(w, depth, SetFlagsValue, x, item, st1);
    var refs := ParserSteps.ListRefs(x, [item]);
    ParserSteps.StoppedRefs(w, depth, SetFlagsValue, []);
    assert refs[1..] == [] && |refs| == 1;
  }

  /** What one name listed in --fromenv or --tryfromenv does to the errors, the undefined names and the
      flags. Only --fromenv minds a variable that is missing. */
  ghost predicate EnvOutcome(w: World, depth: nat, x: string, p: string, st: PState, r: PState) {
    var flag, variable := FindFlag(Sig(st.flags), p), "FLAGS_" + p;
    if flag.Some? && variable in w.environ
       && w.environ[variable] != "fromenv" && w.environ[variable] != "tryfromenv" then
      r == RunAssigns(w, depth, SetFlagsValue, [Assign(flag.value, w.environ[variable])], st)
    else
      && r.flags == st.flags && r.stop == Running
      && r.undefined == (if flag.None? then st.undefined + {p} else st.undefined)
      && r.errors == (if flag.None? then st.errors[p := Some(UnknownInEnvList)]
                      else if variable in w.environ then st.errors[p := Some(EnvRecursion(w.environ[variable]))]
                      else if x == "fromenv" then st.errors[p := Some(NotInEnvironment(variable))]
                      else st.errors)
  }

  lemma EnvFollowed(w: World, depth: nat, x: string, p: string, st: PState)
    requires st.stop == Running && (x == "fromenv" || x == "tryfromenv")
    ensures EnvOutcome(w, depth, x, p, st, Follow(w, depth + 1, SetFlagsValue, EnvRef(p, x == "fromenv"), st))
  {
    ParserSteps.FollowEnv(w, depth + 1, SetFlagsValue, p, x == "fromenv", st);
    hide Sig, RunAssigns, FindFlag, Follow;
  }

  /** One name in --fromenv or --tryfromenv: the flag is set and the name is looked up. */
  lemma EnvEntry(w: World, depth: nat, x: string, p: string, st: PState)
    requires WellFormed(st.flags) && st.stop == Running && Plain(p) && (x == "fromenv" || x == "tryfromenv")
    requires Accepts(w, x, st.flags[x], p)
    ensures var st1 := WithString(st, x, p);
            && Sig(st1.flags) == Sig(st.flags)
            && EnvOutcome(w, depth, x, p, st1, RunAssigns(w, depth + 1, SetFlagsValue, [Assign(x, p)], st))
  {
    References.RecursiveKnown(st.flags, x);
    var st1 := WithString(st, x, p);
    assert st1.stop == Running;
    hide WellFormed, Sig, RunAssigns, Follow, FindFlag, Accepts, EnvOutcome, WithString;
    RecursiveSet(w, depth + 1, x, p, st);
    EnvFollowed(w, depth, x, p, st1);
  }

  /** One file listed in --flagfile: its text is carried out at once, and a missing file ends the program. */
  lemma FileEntry(w: World, depth: nat, file: string, st: PState)
    requires WellFormed(st.flags) && st.stop == Running && Plain(file)
    requires Accepts(w, "flagfile", st.flags["flagfile"], file)
    ensures var st1 := WithString(st, "flagfile", file);
            var r := RunAssigns(w, depth + 1, SetFlagsValue, [Assign("flagfile", file)], st);
            if file in w.files then r == RunText(w, depth, SetFlagsValue, w.files[file], st1)
            else r.stop == Exited && r.flags == st1.flags
  {
    References.RecursiveKnown(st.flags, "flagfile");
    var st1 := WithString(st, "flagfile", file);
    assert st1.stop == Running;
    hide WellFormed, Sig, RunAssigns, RunText, Follow, Accepts, WithString, Plain;
    RecursiveSet(w, depth + 1, "flagfile", file, st);
    ParserSteps.FollowFile(w, depth + 1, SetFlagsValue, file, st1);
  }

  /** A whole list of registered names without a value in the environment. */
  lemma MissingVariables(w: World, depth: nat, x: string, names: seq<string>, st: PState)
    requires WellFormed(st.flags) && st.stop == Running && (x == "fromenv" || x == "tryfromenv")
    requires forall i | 0 <= i < |names| ::
      Plain(names[i]) && FindFlag(Sig(st.flags), names[i]).Some? && "FLAGS_" + names[i] !in w.environ
    requires Accepts(w, x, st.flags[x], JoinList(names))
    ensures var r := RunAssigns(w, depth, SetFlagsValue, [Assign(x, JoinList(names))], st);
            && r.stop == Running && r.undefined == st.undefined
            && r.flags == WithString(st, x, JoinList(names)).flags
            && (x == "tryfromenv" ==> r.errors == st.errors)
            && (x == "fromenv" ==>
                  && (forall i | 0 <= i < |names| ::
                        names[i] in r.errors && r.errors[names[i]] == Some(NotInEnvironment("FLAGS_" + names[i])))
                  && (forall k | k !in names :: k in r.errors <==> k in st.errors)
                  && (forall k | k !in names && k in st.errors :: r.errors[k] == st.errors[k]))
  {
    var text := JoinList(names);
    FlagListRoundTrip(names);
    hide WellFormed, Sig, RunAssigns, RunRefs, FlagList, JoinList, TryParse, FindFlag;
    References.RecursiveKnown(st.flags, x);
    SetValue(w, x, st.flags[x], text);
    StringAccepted(w, x, st.flags[x], text);
    var st1 := Apply(w, SetFlagsValue, Set(x, text), st);
    SetKeepsTable(w, SetFlagsValue, Set(x, text), st);
    ParserSteps.SingleOption(w, depth, SetFlagsValue, Assign(x, text), st);
    ParserSteps.ListStart(w, depth, SetFlagsValue, x, text, st1);
    MissingFrom(w, depth, x, names, 0, st1);
    assert ParserSteps.ListRefs(x, names)[0..] == ParserSteps.ListRefs(x, names);
  }

  /** The errors after the names from `i` on have been found missing. */
  ghost predicate Reported(names: seq<string>, i: nat, before: map<string, Option<Error>>, after: map<string, Option<Error>>)
    requires i <= |names|
  {
    && (forall j | i <= j < |names| ::
          names[j] in after && after[names[j]] == Some(NotInEnvironment("FLAGS_" + names[j])))
    && (forall k | k !in names[i..] :: k in after <==> k in before)
    && (forall k | k !in names[i..] && k in before :: after[k] == before[k])
  }

  lemma {:induction false} MissingFrom(w: World, depth: nat, x: string, names: seq<string>, i: nat, st: PState)
    requires i <= |names| && st.stop == Running && (x == "fromenv" || x == "tryfromenv")
    requires forall j | 0 <= j < |names| ::
      FindFlag(Sig(st.flags), names[j]).Some? && "FLAGS_" + names[j] !in w.environ
    ensures var r := RunRefs(w, depth, SetFlagsValue, ParserSteps.ListRefs(x, names)[i..], st);
            && r.stop == Running && r.undefined == st.undefined && r.flags == st.flags
            && (if x == "tryfromenv" then r.errors == st.errors else Reported(names, i, st.errors, r.errors))
    decreases |names| - i
  {
    hide Sig, FindFlag, Follow, RunRefs, Apply;
    var refs := ParserSteps.ListRefs(x, names);
    if i == |names| {
      assert refs[i..] == [];
      ParserSteps.StoppedRefs(w, depth, SetFlagsValue, []);
    } else {
      assert refs[i] == EnvRef(names[i], x == "fromenv");
      ParserSteps.RefStep(w, depth, SetFlagsValue, x, names, i, st);
      ParserSteps.FollowEnv(w, depth, SetFlagsValue, names[i], x == "fromenv", st);
      var st1 := Follow(w, depth, SetFlagsValue, refs[i], st);
      FailRecorded(w, names[i], NotInEnvironment("FLAGS_" + names[i]), st);
      MissingFrom(w, depth, x, names, i + 1, st1);
      assert names[i..] == [names[i]] + names[i + 1..];
    }
  }

  lemma FailRecorded(w: World, key: string, e: Error, st: PState)
    ensures var r := Apply(w, SetFlagsValue, Fail(key, e), st);
            && r.errors == st.errors[key := Some(e)] && r.flags == st.flags && r.stop == st.stop
            && r.undefined == st.undefined
  {
  }

  /** The missing variable of `p` has been complained about. */
  ghost predicate Noted(p: string, st: PState) {
    Fail(p, NotInEnvironment("FLAGS_" + p)) in st.trace && p in st.errors && st.errors[p].Some?
  }

  /** Whatever else --fromenv lists: a registered name without a value in the environment is complained
      about, unless an entry ends the program. */
  lemma MissingReported(w: World, depth: nat, names: seq<string>, i: nat, st: PState)
    requires WellFormed(st.flags) && st.stop == Running && i < |names|
    requires forall j | 0 <= j < |names| :: Plain(names[j])
    requires FindFlag(Sig(st.flags), names[i]).Some? && "FLAGS_" + names[i] !in w.environ
    requires Accepts(w, "fromenv", st.flags["fromenv"], JoinList(names))
    ensures var r := RunAssigns(w, depth, SetFlagsValue, [Assign("fromenv", JoinList(names))], st);
            r.stop == Running ==> Noted(names[i], r)
  {
    var x, text := "fromenv", JoinList(names);
    FlagListRoundTrip(names);
    hide WellFormed, Sig, RunAssigns, RunRefs, FlagList, JoinList, TryParse, FindFlag, KeepsFlags;
    References.RecursiveKnown(st.flags, x);
    SetValue(w, x, st.flags[x], text);
    StringAccepted(w, x, st.flags[x], text);
    var st1 := Apply(w, SetFlagsValue, Set(x, text), st);
    SetKeepsTable(w, SetFlagsValue, Set(x, text), st);
    ParserSteps.SingleOption(w, depth, SetFlagsValue, Assign(x, text), st);
    ParserSteps.ListStart(w, depth, SetFlagsValue, x, text, st1);
    assert ParserSteps.ListRefs(x, names)[0..] == ParserSteps.ListRefs(x, names);
    if RunRefs(w, depth, SetFlagsValue, ParserSteps.ListRefs(x, names), st1).stop == Running {
      KeepsItself(st1);
      MissingAmong(w, depth, names, 0, i, st1, st1);
    }
  }

  lemma KeepsItself(st: PState)
    requires WellFormed(st.flags)
    ensures KeepsFlags(SetFlagsValue, st, st)
  {
  }

  lemma {:induction false} MissingAmong(
      w: World, depth: nat, names: seq<string>, k: nat, i: nat, st0: PState, st: PState)
    requires k <= i < |names| && KeepsFlags(SetFlagsValue, st0, st)
    requires FindFlag(Sig(st0.flags), names[i]).Some? && "FLAGS_" + names[i] !in w.environ
    requires RunRefs(w, depth, SetFlagsValue, ParserSteps.ListRefs("fromenv", names)[k..], st).stop == Running
    ensures Noted(names[i], RunRefs(w, depth, SetFlagsValue, ParserSteps.ListRefs("fromenv", names)[k..], st))
    decreases i - k
  {
    var refs, p := ParserSteps.ListRefs("fromenv", names), names[i];
    KeptSig(st0, st);
    hide Sig, FindFlag, Follow, RunRefs, Apply, KeepsFlags, Noted;
    StopsForGood(w, depth, refs[k..], st);
    ParserSteps.RefStep(w, depth, SetFlagsValue, "fromenv", names, k, st);
    var next := Follow(w, depth, SetFlagsValue, refs[k], st);
    if k == i {
      assert refs[k] == EnvRef(p, true);
      NotedFrom(w, depth, p, refs[k + 1..], st);
    } else {
      FollowKeepsFlags(w, depth, refs[k], st0, st);
      MissingAmong(w, depth, names, k + 1, i, st0, next);
    }
  }

  lemma NotedFrom(w: World, depth: nat, p: string, later: seq<Ref>, st: PState)
    requires st.stop == Running && FindFlag(Sig(st.flags), p).Some? && "FLAGS_" + p !in w.environ
    ensures Noted(p, RunRefs(w, depth, SetFlagsValue, later, Follow(w, depth, SetFlagsValue, EnvRef(p, true), st)))
  {
    hide Sig, FindFlag, Follow, RunRefs, Apply, Noted, Stable;
    ParserSteps.FollowEnv(w, depth, SetFlagsValue, p, true, st);
    FailNoted(w, p, st);
    NotedStays(w, p);
    RunRefsKeeps(w, depth, SetFlagsValue, later, Follow(w, depth, SetFlagsValue, EnvRef(p, true), st), s => Noted(p, s));
  }

  lemma FollowKeepsFlags(w: World, depth: nat, ref: Ref, st0: PState, st: PState)
    requires st.stop == Running && KeepsFlags(SetFlagsValue, st0, st)
    ensures KeepsFlags(SetFlagsValue, st0, Follow(w, depth, SetFlagsValue, ref, st))
  {
    forall p: Prim, s: PState | KeepsFlags(SetFlagsValue, st0, s) && Legal(p, s) {
      ApplyKeepsFlags(w, SetFlagsValue, st0, p, s);
    }
    hide Follow, KeepsFlags;
    FollowKeeps(w, depth, ref, st, s => KeepsFlags(SetFlagsValue, st0, s));
  }

  lemma KeptSig(st0: PState, st: PState)
    requires KeepsFlags(SetFlagsValue, st0, st)
    ensures Sig(st.flags) == Sig(st0.flags)
  {
  }

  lemma StopsForGood(w: World, depth: nat, refs: seq<Ref>, st: PState)
    requires RunRefs(w, depth, SetFlagsValue, refs, st).stop == Running
    ensures st.stop == Running
  {
    if st.stop != Running { ParserSteps.StoppedRefs(w, depth, SetFlagsValue, refs); }
  }

  lemma FollowKeeps(w: World, depth: nat, ref: Ref, st: PState, inv: PState -> bool)
    requires Stable(w, SetFlagsValue, inv) && inv(st) && st.stop == Running
    ensures inv(Follow(w, depth, SetFlagsValue, ref, st))
  {
    hide Follow, Stable;
    RunRefsKeeps(w, depth, SetFlagsValue, [ref], st, inv);
    ParserSteps.StoppedRefs(w, depth, SetFlagsValue, []);
    assert [ref][1..] == [];
  }

  lemma FailNoted(w: World, p: string, st: PState)
    ensures Noted(p, Apply(w, SetFlagsValue, Fail(p, NotInEnvironment("FLAGS_" + p)), st))
  {
  }

  lemma NotedStays(w: World, p: string)
    ensures Stable(w, SetFlagsValue, s => Noted(p, s))
  {
    forall prim: Prim, st: PState | Noted(p, st) && Legal(prim, st)
      ensures Noted(p, Apply(w, SetFlagsValue, prim, st))
    {
      ErrorReports.ErrorStays(w, prim, st, p);
      References.ApplyTraces(w, prim, st);
      hide Apply;
    }
  }

  // ----- --undefok -----

  /** Not the name of a flag, and not "no" and the name of a flag either. */
  predicate UnknownName(sig: Signature, f: string) {
    && f != "" && f[0] != '-' && '=' !in f && FindFlag(sig, f).None?
    && (|f| >= 2 && f[..2] == "no" ==> FindFlag(sig, f[2..]).None?)
  }

  lemma UnknownKind(sig: Signature, f: string)
    requires UnknownName(sig, f)
    ensures ScanArgs(sig, ["--" + f]).events == [Record(Unknown(f, UnknownFlag))]
  {
    assert ("--" + f)[2..] == f && f + "" == f;
    SplitRefused(sig, f, "");
    hide FindFlag, SplitArgument;
    assert KindOf(sig, "--" + f) == NoFlag(f, UnknownFlag);
    hide KindOf;
    assert ["--" + f][1..] == [] && ScanArgs(sig, []).events == [];
  }

  /** --undefok with a list of names, and then an unknown option: the option is recorded as undefined, and
      excused just if it is listed or is "no" and a listed name that is not itself undefined. */
  lemma UndefokExcuses(w: World, depth: nat, names: seq<string>, f: string, st: PState)
    requires WellFormed(st.flags) && st.stop == Running && UnknownName(Sig(st.flags), f)
    requires forall j | 0 <= j < |names| :: Plain(names[j])
    requires Accepts(w, "undefok", st.flags["undefok"], JoinList(names))
    ensures var r := RunArgs(w, depth, ["--" + ("undefok" + "=" + JoinList(names)), "--" + f], st);
            && r.stop == Running && r.flags == WithString(st, "undefok", JoinList(names)).flags
            && r.errors == st.errors[f := Some(UnknownFlag)] && r.undefined == st.undefined + {f}
            && FlagList(Contents(r.flags["undefok"])) == Some(names)
            && (ErrorReports.Excused(r.undefined, names, false, f) <==>
                  f in names || (|f| >= 2 && f[..2] == "no" && f[2..] in names && f[2..] !in r.undefined))
  {
    var sig, text := Sig(st.flags), JoinList(names);
    FlagListRoundTrip(names);
    UndefokKnown(st.flags);
    hide WellFormed, Sig, FlagList, JoinList, TryParse, FindFlag, UnknownName, RunAssigns, RunEvents, ScanArgs,
      Plain, Apply, Accepts, SetFlag, Expand, ErrorReports.Excused;
    UndefokEvents(sig, text, f);
    UndefokSet(w, depth, text, st);
    TwoEvents(w, depth, Assign("undefok", text), Unknown(f, UnknownFlag), st);
    NegatedName(st.undefined + {f}, names, f);
  }

  lemma UndefokEvents(sig: Signature, text: string, f: string)
    requires FindFlag(sig, "undefok") == Some("undefok") && UnknownName(sig, f)
    ensures ScanArgs(sig, ["--" + ("undefok" + "=" + text), "--" + f]).events ==
      [Do(Assign("undefok", text))] + [Record(Unknown(f, UnknownFlag))]
  {
    hide FindFlag, UnknownName, ScanArgs;
    ValueForms(sig, "undefok", text, ["--" + f]);
    UnknownKind(sig, f);
    var first := "--" + ("undefok" + "=" + text);
    assert [first] + ["--" + f] == [first, "--" + f];
  }

  lemma UndefokKnown(flags: FlagTable)
    requires WellFormed(flags)
    ensures "undefok" in flags && Values.TypeOf(flags["undefok"].current) == Values.FvString
    ensures FindFlag(Sig(flags), "undefok") == Some("undefok") && !IsRecursive("undefok")
  {
    assert flags["undefok"].WellTyped();
  }

  lemma UndefokSet(w: World, depth: nat, text: string, st: PState)
    requires "undefok" in st.flags && Values.TypeOf(st.flags["undefok"].current) == Values.FvString
    requires st.stop == Running && Accepts(w, "undefok", st.flags["undefok"], text) && NUL !in text
    ensures RunAssigns(w, depth, SetFlagsValue, [Assign("undefok", text)], st) == WithString(st, "undefok", text)
  {
    hide RunAssigns, TryParse;
    SetValue(w, "undefok", st.flags["undefok"], text);
    StringAccepted(w, "undefok", st.flags["undefok"], text);
    ParserSteps.SingleOption(w, depth, SetFlagsValue, Assign("undefok", text), st);
  }

  lemma TwoEvents(w: World, depth: nat, a: Assign, p: Prim, st: PState)
    requires st.stop == Running && RunAssigns(w, depth, SetFlagsValue, [a], st).stop == Running
    requires p.Unknown?
    ensures var st1 := RunAssigns(w, depth, SetFlagsValue, [a], st);
            var r := RunEvents(w, depth, [Do(a)] + [Record(p)], st);
            && r.stop == Running && r.flags == st1.flags && r.errors == st1.errors[p.key := Some(p.error)]
            && r.undefined == st1.undefined + {p.key}
  {
    UnknownRecorded(w, p, RunAssigns(w, depth, SetFlagsValue, [a], st));
    var events, st1 := [Do(a)] + [Record(p)], RunAssigns(w, depth, SetFlagsValue, [a], st);
    hide RunAssigns, Apply;
    assert events[1..] == [Record(p)] && events[1..][1..] == [];
    assert RunEvents(w, depth, events, st) == RunEvents(w, depth, events[1..], st1);
  }

  lemma UnknownRecorded(w: World, p: Prim, st: PState)
    requires p.Unknown?
    ensures var r := Apply(w, SetFlagsValue, p, st);
            && r.stop == st.stop && r.flags == st.flags && r.errors == st.errors[p.key := Some(p.error)]
            && r.undefined == st.undefined + {p.key}
  {
  }

  /** The words in which the documentation puts what --undefok excuses. */
  lemma NegatedName(undefined: set<string>, names: seq<string>, f: string)
    requires f in undefined
    ensures ErrorReports.Excused(undefined, names, false, f) <==>
              f in names || (|f| >= 2 && f[..2] == "no" && f[2..] in names && f[2..] !in undefined)
  {
    forall i | 0 <= i < |names|
      ensures "no" + names[i] == f <==> |f| >= 2 && f[..2] == "no" && f[2..] == names[i]
    {
      assert ("no" + names[i])[2..] == names[i] && ("no" + names[i])[..2] == "no";
      if |f| >= 2 && f[..2] == "no" { assert f == f[..2] + f[2..]; }
    }
  }

  // ----- The order of a whole parse -----

  /** The lists that the recursive flags hold. */
  predicate HoldsLists(flags: FlagTable, file: string, strict: string, lax: string) {
    && "flagfile" in flags && "fromenv" in flags && "tryfromenv" in flags
    && Contents(flags["flagfile"]) == file && Contents(flags["fromenv"]) == strict
    && Contents(flags["tryfromenv"]) == lax
  }

  /** `r` is `st` after one more attempt to set a flag that is not recursive. */
  ghost predicate OneMoreSet(a: Assign, st: PState, r: PState) {
    && r.stop == Running && WellFormed(r.flags) && Sig(r.flags) == Sig(st.flags)
    && r.trace == st.trace + [Set(a.name, a.text)]
    && forall file, strict, lax | HoldsLists(st.flags, file, strict, lax) :: HoldsLists(r.flags, file, strict, lax)
  }

  /** Something that a parse can do in one attempt: the flag is registered and not recursive. */
  predicate Ordinary(sig: Signature, a: Assign) {
    a.name in sig && a.name != "flagfile" && a.name != "fromenv" && a.name != "tryfromenv"
  }

  lemma OrdinarySet(w: World, depth: nat, a: Assign, st: PState)
    requires WellFormed(st.flags) && st.stop == Running && Ordinary(Sig(st.flags), a)
    ensures OneMoreSet(a, st, RunAssigns(w, depth, SetFlagsValue, [a], st))
  {
    hide WellFormed, RunAssigns, SetFlag;
    ParserSteps.SingleOption(w, depth, SetFlagsValue, a, st);
    SetKeepsTable(w, SetFlagsValue, Set(a.name, a.text), st);
    References.ApplyTraces(w, Set(a.name, a.text), st);
    hide Apply, Sig;
  }

  /** A file that a parse finds in --flagfile before it starts, with one flag line. */
  lemma FilePreset(w: World, depth: nat, file: string, name: string, value: string, st: PState)
    requires st.stop == Running && "flagfile" in st.flags && Contents(st.flags["flagfile"]) == file && Plain(file)
    requires name in Sig(st.flags) && '=' !in name && name != "" && name[0] != '-'
    requires var line := "--" + (name + "=" + value);
             FlagfileLaws.Writable(line) && file in w.files && w.files[file] == line
    ensures FollowPreset(w, depth + 1, "flagfile", st) ==
            RunAssigns(w, depth, SetFlagsValue, [Assign(name, value)], st)
  {
    var sig, line := Sig(st.flags), "--" + (name + "=" + value);
    assert FindFlag(sig, name) == Some(name);
    FlagListRoundTrip([file]);
    hide Sig, RunAssigns, FindFlag, FlagList, LineAssign, TextAssigns, FlagfileLaws.Writable, Follow, RunRefs;
    FlagfileLaws.FlagLineAssigns(sig, name, value);
    FlagfileLaws.OneFlagLine(ProgramMatcher(w), sig, line);
    SingleRef(w, depth + 1, "flagfile", file, st);
    ParserSteps.FollowFile(w, depth + 1, SetFlagsValue, file, st);
  }

  lemma SingleRef(w: World, depth: nat, x: string, item: string, st: PState)
    requires st.stop == Running && x in st.flags && Contents(st.flags[x]) == item && Plain(item)
    requires x == "flagfile" || x == "fromenv" || x == "tryfromenv"
    ensures FollowPreset(w, depth, x, st) ==
      Follow(w, depth, SetFlagsValue, if x == "flagfile" then FileRef(item) else EnvRef(item, x == "fromenv"), st)
  {
    FlagListRoundTrip([item]);
    hide FlagList, Follow;
    ParserSteps.ListStart(w, depth, SetFlagsValue, x, item, st);
    ParserSteps.StoppedRefs(w, depth, SetFlagsValue, []);
    var refs := ParserSteps.ListRefs(x, [item]);
    assert refs[1..] == [] && |refs| == 1;
    hide RunList;
  }

  /** A name that a parse finds in --fromenv or --tryfromenv before it starts. */
  lemma EnvPreset(w: World, depth: nat, x: string, p: string, value: string, st: PState)
    requires st.stop == Running && (x == "fromenv" || x == "tryfromenv")
    requires x in st.flags && Contents(st.flags[x]) == p && Plain(p) && p in Sig(st.flags)
    requires "FLAGS_" + p in w.environ && w.environ["FLAGS_" + p] == value
    requires value != "fromenv" && value != "tryfromenv"
    ensures FollowPreset(w, depth + 1, x, st) == RunAssigns(w, depth, SetFlagsValue, [Assign(p, value)], st)
  {
    assert FindFlag(Sig(st.flags), p) == Some(p);
    hide Sig, FindFlag, FollowPreset, RunAssigns, Follow, Apply, Plain;
    SingleRef(w, depth + 1, x, p, st);
    EnvFollowed(w, depth, x, p, st);
  }

  /** The files of --flagfile come first, then the names of --fromenv, then those of --tryfromenv, and the
      arguments of the program last. */
  lemma ParseOrder(
      w: World, depth: nat, file: string, a: Assign, b: Assign, c: Assign, d: Assign, flags: FlagTable)
    requires WellFormed(flags) && HoldsLists(flags, file, b.name, c.name)
    requires Ordinary(Sig(flags), a) && Ordinary(Sig(flags), b) && Ordinary(Sig(flags), c) && Ordinary(Sig(flags), d)
    requires Plain(file) && Plain(b.name) && Plain(c.name)
    requires '=' !in a.name && a.name != "" && a.name[0] != '-' && '=' !in d.name && d.name != ""
    requires var line := "--" + (a.name + "=" + a.text);
             FlagfileLaws.Writable(line) && file in w.files && w.files[file] == line
    requires "FLAGS_" + b.name in w.environ && w.environ["FLAGS_" + b.name] == b.text
    requires "FLAGS_" + c.name in w.environ && w.environ["FLAGS_" + c.name] == c.text
    requires b.text != "fromenv" && b.text != "tryfromenv" && c.text != "fromenv" && c.text != "tryfromenv"
    ensures var r := RunCommandLine(w, depth + 1, ["--" + (d.name + "=" + d.text)], PState(flags, map[], {}, [], Running));
            && r.stop == Running
            && r.trace == [Set(a.name, a.text), Set(b.name, b.text), Set(c.name, c.text), Set(d.name, d.text)]
  {
    var st := PState(flags, map[], {}, [], Running);
    hide WellFormed, Sig, FollowPreset, RunArgs, RunAssigns, FlagfileLaws.Writable, Plain;
    FilePreset(w, depth, file, a.name, a.text, st);
    OrdinarySet(w, depth, a, st);
    var s1 := RunAssigns(w, depth, SetFlagsValue, [a], st);
    assert HoldsLists(s1.flags, file, b.name, c.name);
    EnvPreset(w, depth, "fromenv", b.name, b.text, s1);
    OrdinarySet(w, depth, b, s1);
    var s2 := RunAssigns(w, depth, SetFlagsValue, [b], s1);
    assert HoldsLists(s2.flags, file, b.name, c.name);
    EnvPreset(w, depth, "tryfromenv", c.name, c.text, s2);
    OrdinarySet(w, depth, c, s2);
    var s3 := RunAssigns(w, depth, SetFlagsValue, [c], s2);
    LastArgument(w, depth + 1, d, s3);
  }

  lemma LastArgument(w: World, depth: nat, d: Assign, st: PState)
    requires WellFormed(st.flags) && st.stop == Running && Ordinary(Sig(st.flags), d) && '=' !in d.name && d.name != ""
    ensures OneMoreSet(d, st, RunArgs(w, depth, ["--" + (d.name + "=" + d.text)], st))
  {
    var arg := "--" + (d.name + "=" + d.text);
    assert FindFlag(Sig(st.flags), d.name) == Some(d.name);
    hide WellFormed, Sig, FindFlag, RunArgs, RunAssigns, ScanArgs, OneMoreSet;
    ValueForms(Sig(st.flags), d.name, d.text, []);
    assert [arg] + [] == [arg];
    NoArguments(Sig(st.flags));
    OneArgument(w, depth, arg, d, st);
    OrdinarySet(w, depth, d, st);
  }

  lemma NoArguments(sig: Signature)
    ensures ScanArgs(sig, []).events == []
  {
  }

  // ----- Which errors are left -----

  /** An error that neither --undefok nor a planned second parse excuses. */
  predicate Unexcused(st: PState, list: seq<string>, reparse: bool, k: string) {
    && k in st.errors && st.errors[k].Some?
    && !(k in st.undefined &&
         (reparse || k in list || (|k| >= 2 && k[..2] == "no" && k[2..] in list && k[2..] !in st.undefined)))
  }

  /** A flag still at its default that its validator refuses. */
  predicate Unvalidated(w: World, flags: FlagTable, n: string) {
    && n in flags && !flags[n].modified && flags[n].validator.Some?
    && !w.validators(flags[n].validator.value, n, flags[n].current)
  }

  /** A parse complains just if an unexcused error or an unmodified invalid flag is left. */
  lemma ErrorsLeft(w: World, st: PState, list: seq<string>, reparse: bool)
    requires SoundErrors(st)
    ensures ErrorReports.AnyError(FinalErrors(w, st, list, reparse)) <==>
      || (exists k :: Unexcused(st, list, reparse, k))
      || (exists n :: Unvalidated(w, st.flags, n))
  {
    hide SoundErrors, FinalErrors, Unexcused, Unvalidated;
    var left := FinalErrors(w, st, list, reparse);
    forall k ensures k in left && left[k].Some? <==> Unexcused(st, list, reparse, k) || Unvalidated(w, st.flags, k) {
      LeftAt(w, st, list, reparse, k);
    }
  }

  lemma LeftAt(w: World, st: PState, list: seq<string>, reparse: bool, k: string)
    requires SoundErrors(st)
    ensures var left := FinalErrors(w, st, list, reparse);
            k in left && left[k].Some? <==> Unexcused(st, list, reparse, k) || Unvalidated(w, st.flags, k)
  {
    ExcusedExactly(st, list, reparse, k);
    if k in st.flags { FlagNotUndefined(st, k); }
    assert Unvalidated(w, st.flags, k) <==> ErrorReports.FailsValidation(w, false, st.flags, k);
    hide SoundErrors, Unexcused, Unvalidated, ErrorReports.FailsValidation, ErrorReports.UndefOk;
  }

  lemma FlagNotUndefined(st: PState, n: string)
    requires SoundErrors(st) && n in st.flags
    ensures n !in st.undefined
  {
    assert FindFlag(Sig(st.flags), n) == Some(n);
  }

  lemma ExcusedExactly(st: PState, list: seq<string>, reparse: bool, k: string)
    ensures Unexcused(st, list, reparse, k) <==>
      k in st.errors && st.errors[k].Some? && !ErrorReports.Excused(st.undefined, list, reparse, k)
  {
    if k in st.undefined { NegatedName(st.undefined, list, k); }
  }
}
