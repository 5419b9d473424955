/** What a parse of the command line keeps and means. */
module ArgvProofs {
  import Text
  import Values
  import opened Flags
  import Names
  import Flagfile
  import opened Engine
  import opened ParseProofs
  import opened Argv
  import ParserSteps

  // ----- Events use primitives as a parse may -----

  predicate LegalEvent(sig: Names.Signature, e: Event) {
    match e
    case Do(a) => a.name in sig
    case Record(Unknown(key, error)) => Names.FindFlag(sig, key).None? && IsNameError(error)
    case Record(Fail(key, error)) => Names.FindFlag(sig, key).Some? && !IsNameError(error)
    case Record(_) => false
  }

  predicate LegalEvents(sig: Names.Signature, events: seq<Event>) {
    forall i | 0 <= i < |events| :: LegalEvent(sig, events[i])
  }

  lemma {:induction false} ScanLegal(sig: Names.Signature, args: seq<string>)
    ensures LegalEvents(sig, ScanArgs(sig, args).events)
  {
    if args != [] {
      SplitKind(sig, args[0]);
      hide KindOf, Names.FindFlag;
      match KindOf(sig, args[0])
      case ProgramArgument => ScanLegal(sig, args[1..]);
      case Terminator =>
      case NoFlag(_, _) => ScanLegal(sig, args[1..]);
      case Complete(_) => ScanLegal(sig, args[1..]);
      case WantsValue(_, _) => if |args| > 1 { ScanLegal(sig, args[2..]); }
    }
  }

  lemma SplitKind(sig: Names.Signature, arg: string)
    ensures match KindOf(sig, arg)
            case NoFlag(key, e) => Names.FindFlag(sig, key).None? && IsNameError(e)
            case Complete(a) => a.name in sig
            case WantsValue(key, flag) => Names.FindFlag(sig, key) == Text.Some(flag) && sig[flag] != Values.FvBool
            case _ => true
  {
    if LooksLikeFlag(arg) && Flagfile.StripDashes(arg) != "" {
      hide Names.FindFlag;
      Names.SplitResolves(sig, Flagfile.StripDashes(arg));
    }
  }

  lemma RunEventKeeps(w: World, depth: nat, e: Event, st: PState, inv: PState -> bool)
    requires WellFormed(st.flags) && LegalEvent(Sig(st.flags), e) && st.stop == Running
    requires Stable(w, SetFlagsValue, inv) && inv(st)
    ensures var r := RunEvent(w, depth, e, st);
            inv(r) && WellFormed(r.flags) && Sig(r.flags) == Sig(st.flags)
  {
    hide WellFormed, Sig, Names.FindFlag;
    match e
    case Do(a) =>
      RunAssignsKeeps(w, depth, SetFlagsValue, [a], st, inv);
      ParseKeepsFlags(w, depth, SetFlagsValue, [a], st);
    case Record(p) =>
      assert Legal(p, st);
  }

  lemma {:induction false} RunEventsKeeps(
      w: World, depth: nat, events: seq<Event>, st: PState, inv: PState -> bool)
    requires WellFormed(st.flags) && LegalEvents(Sig(st.flags), events)
    requires Stable(w, SetFlagsValue, inv) && inv(st)
    ensures inv(RunEvents(w, depth, events, st))
  {
    hide WellFormed, Sig, LegalEvent, RunEvent, Stable;
    if events != [] && st.stop == Running {
      RunEventKeeps(w, depth, events[0], st, inv);
      RunEventsKeeps(w, depth, events[1..], RunEvent(w, depth, events[0], st), inv);
    }
  }

  /** Parsing a command line is a run of primitives, keeps the flags' types, validators and default
      values, and keeps the error records sound. */
  lemma RunArgsKeeps(w: World, depth: nat, args: seq<string>, st: PState)
    requires WellFormed(st.flags)
    ensures var r := RunArgs(w, depth, args, st);
            && Replays(w, SetFlagsValue, st, r)
            && KeepsFlags(SetFlagsValue, st, r) && Sig(r.flags) == Sig(st.flags)
            && (SoundErrors(st) ==> SoundErrors(r))
            && Remembers(st, r)
  {
    hide WellFormed, RunEvents, SoundErrors, Remembers, Apply, ApplyAll;
    ScanLegal(Sig(st.flags), args);
    var events := ScanArgs(Sig(st.flags), args).events;
    ReplaysStable(w, SetFlagsValue, st);
    assert st.trace[|st.trace|..] == [];
    assert Replays(w, SetFlagsValue, st, st) by { ReplaysSelf(w, SetFlagsValue, st); }
    RunEventsKeeps(w, depth, events, st, s => Replays(w, SetFlagsValue, st, s));
    KeepsFlagsStable(w, st);
    RunEventsKeeps(w, depth, events, st, s => KeepsFlags(SetFlagsValue, st, s));
    if SoundErrors(st) {
      SoundErrorsStable(w, SetFlagsValue);
      RunEventsKeeps(w, depth, events, st, (s: PState) => WellFormed(s.flags) && SoundErrors(s));
    }
    RemembersStable(w, st);
    RunEventsKeeps(w, depth, events, st, s => Remembers(st, s));
    SameSigKept(st, RunArgs(w, depth, args, st));
  }

  lemma ReplaysSelf(w: World, mode: Mode, st: PState)
    ensures Replays(w, mode, st, st)
  {
    assert st.trace[|st.trace|..] == [];
  }

  lemma KeepsFlagsStable(w: World, st0: PState)
    requires WellFormed(st0.flags)
    ensures Stable(w, SetFlagsValue, st => KeepsFlags(SetFlagsValue, st0, st))
    ensures KeepsFlags(SetFlagsValue, st0, st0)
  {
    hide WellFormed, KeepsFlags;
    forall p: Prim, st: PState | KeepsFlags(SetFlagsValue, st0, st) && Legal(p, st) {
      ApplyKeepsFlags(w, SetFlagsValue, st0, p, st);
    }
    assert KeepsFlags(SetFlagsValue, st0, st0) by { KeepsFlagsSelf(st0); }
  }

  lemma KeepsFlagsSelf(st: PState)
    requires WellFormed(st.flags)
    ensures KeepsFlags(SetFlagsValue, st, st)
  {
  }

  lemma RemembersStable(w: World, st0: PState)
    ensures Stable(w, SetFlagsValue, st => Remembers(st0, st)) && Remembers(st0, st0)
  {
    forall p: Prim, st: PState | Remembers(st0, st) && Legal(p, st) {
      ApplyRemembers(w, SetFlagsValue, st0, p, st);
    }
  }

  lemma SameSigKept(st0: PState, st: PState)
    requires KeepsFlags(SetFlagsValue, st0, st)
    ensures Sig(st.flags) == Sig(st0.flags)
  {
  }

  // ----- Last accepted assignment wins -----

  /** After any command line, whatever files and environment values it pulls in, every flag holds
      the value of the last accepted assignment made to it during the parse. */
  lemma ArgsLastWins(w: World, depth: nat, args: seq<string>, st: PState, name: string)
    requires WellFormed(st.flags) && name in st.flags
    ensures var r := RunArgs(w, depth, args, st);
            && |st.trace| <= |r.trace| && name in r.flags
            && r.flags[name] == After(w, name, r.trace[|st.trace|..], st.flags[name])
  {
    hide RunArgs, After, ApplyAll;
    RunArgsKeeps(w, depth, args, st);
    var r := RunArgs(w, depth, args, st);
    assert st.flags[name].WellTyped();
    FlagAfter(w, name, r.trace[|st.trace|..], st);
  }

  /** The primitives that a command line without recursive flags comes to. */
  function EventPrims(events: seq<Event>): seq<Prim> {
    if events == [] then []
    else
      [match events[0] case Do(a) => Set(a.name, a.text) case Record(p) => p] + EventPrims(events[1..])
  }

  predicate Plain(events: seq<Event>) {
    forall i | 0 <= i < |events| :: events[i].Do? ==> !IsRecursive(events[i].assign.name)
  }

  /** Without recursive flags the parse does exactly what the arguments say, in their order. */
  lemma {:induction false} PlainTrace(w: World, depth: nat, events: seq<Event>, st: PState)
    requires WellFormed(st.flags) && LegalEvents(Sig(st.flags), events) && Plain(events)
    requires st.stop == Running
    ensures var r := RunEvents(w, depth, events, st);
            r.stop == Running && r.trace == st.trace + EventPrims(events)
  {
    hide WellFormed, Sig, LegalEvent;
    if events != [] {
      var st1 := RunEvent(w, depth, events[0], st);
      PlainEvent(w, depth, events[0], st);
      RunEventKeeps(w, depth, events[0], st, _ => true);
      PlainTrace(w, depth, events[1..], st1);
    }
  }

  lemma PlainEvent(w: World, depth: nat, e: Event, st: PState)
    requires LegalEvent(Sig(st.flags), e) && st.stop == Running
    requires e.Do? ==> !IsRecursive(e.assign.name)
    ensures var r := RunEvent(w, depth, e, st);
            && r.stop == Running
            && r.trace == st.trace + [match e case Do(a) => Set(a.name, a.text) case Record(p) => p]
  {
    hide SetFlag, Names.FindFlag, RunAssigns;
    if e.Do? { ParserSteps.SingleOption(w, depth, SetFlagsValue, e.assign, st); }
  }

  lemma PlainArgsLastWins(w: World, depth: nat, args: seq<string>, st: PState, name: string)
    requires WellFormed(st.flags) && name in st.flags && st.stop == Running
    requires Plain(ScanArgs(Sig(st.flags), args).events)
    ensures var r := RunArgs(w, depth, args, st);
            && r.stop == Running && name in r.flags
            && r.flags[name].current
            == LastAccepted(w, name, st.flags[name], EventPrims(ScanArgs(Sig(st.flags), args).events))
  {
    hide WellFormed, RunEvents, Sig, LastAccepted, Plain;
    var events := ScanArgs(Sig(st.flags), args).events;
    ScanLegal(Sig(st.flags), args);
    PlainTrace(w, depth, events, st);
    ArgsLastWins(w, depth, args, st, name);
    var r := RunArgs(w, depth, args, st);
    assert r.trace[|st.trace|..] == EventPrims(events);
  }

  // ----- Parsing again -----

  lemma RunEventInStep(w: World, depth: nat, e: Event, a: seq<Prim>, b: seq<Prim>, s: PState, t: PState)
    requires InStep(a, b, s, t)
    ensures InStep(a, b, RunEvent(w, depth, e, s), RunEvent(w, depth, e, t))
  {
    hide InStep;
    match e
    case Do(x) => RunAssignsInStep(w, depth, [x], a, b, s, t);
    case Record(p) => ApplyInStep(w, p, a, b, s, t);
  }

  lemma {:induction false} RunEventsInStep(
      w: World, depth: nat, events: seq<Event>, a: seq<Prim>, b: seq<Prim>, s: PState, t: PState)
    requires InStep(a, b, s, t)
    ensures InStep(a, b, RunEvents(w, depth, events, s), RunEvents(w, depth, events, t))
  {
    hide RunEvent;
    if events != [] && s.stop == Running {
      RunEventInStep(w, depth, events[0], a, b, s, t);
      RunEventsInStep(w, depth, events[1..], a, b, RunEvent(w, depth, events[0], s),
                                                   RunEvent(w, depth, events[0], t));
    }
  }

  lemma {:induction false} LastAcceptedTwice(w: World, name: string, f: FlagState, g: FlagState, ps: seq<Prim>)
    requires SameShape(f, g)
    ensures LastAccepted(w, name, g, ps) == LastAccepted(w, name, f, ps) ||
            (LastAccepted(w, name, g, ps) == g.current && LastAccepted(w, name, f, ps) == f.current)
  {
    hide AcceptedValue, Accepts, TryParse;
    if ps != [] {
      var p := ps[|ps| - 1];
      SameShapeAccepts(w, name, f, g);
      LastAcceptedTwice(w, name, f, g, ps[..|ps| - 1]);
    }
  }

  /** Parsing the same command line again changes no value, recursive flags included: the second
      parse makes the same attempts, and the last accepted one is the one that already won. The same
      holds of any command line with the same events, so also of a permuted one (ReparseSame). */
  lemma ParseAgain(w: World, depth: nat, args: seq<string>, again: seq<string>, st: PState)
    requires WellFormed(st.flags) && st.stop == Running
    requires RunArgs(w, depth, args, st).stop == Running
    requires ScanArgs(Sig(st.flags), again).events == ScanArgs(Sig(st.flags), args).events
    ensures var r := RunArgs(w, depth, args, st);
            var r2 := RunArgs(w, depth, again, r);
            && r2.stop == Running && r2.flags.Keys == r.flags.Keys
            && forall n | n in r.flags :: r2.flags[n].current == r.flags[n].current
  {
    var r := RunArgs(w, depth, args, st);
    var r2 := RunArgs(w, depth, again, r);
    hide RunArgs, LastAccepted, ApplyAll;
    RunArgsKeeps(w, depth, args, st);
    RunArgsKeeps(w, depth, again, r);
    SecondParseInStep(w, depth, args, again, st);
    forall n | n in r.flags ensures r2.flags[n].current == r.flags[n].current {
      ArgsLastWins(w, depth, args, st, n);
      ArgsLastWins(w, depth, again, r, n);
      var f, ps := st.flags[n], r.trace[|st.trace|..];
      LastAcceptedTyped(w, n, f, ps);
      LastAcceptedTwice(w, n, f, r.flags[n], ps);
      LastAcceptedTwice(w, n, f, f, ps);
    }
  }

  lemma SecondParseInStep(w: World, depth: nat, args: seq<string>, again: seq<string>, st: PState)
    requires WellFormed(st.flags) && st.stop == Running
    requires RunArgs(w, depth, args, st).stop == Running
    requires ScanArgs(Sig(st.flags), again).events == ScanArgs(Sig(st.flags), args).events
    ensures var r := RunArgs(w, depth, args, st);
            InStep(st.trace, r.trace, r, RunArgs(w, depth, again, r))
  {
    hide RunEvents, ApplyAll;
    var r := RunArgs(w, depth, args, st);
    RunArgsKeeps(w, depth, args, st);
    KeptShapes(SetFlagsValue, st, r);
    assert st.trace[|st.trace|..] == r.trace[|r.trace|..] == [];
    RunEventsInStep(w, depth, ScanArgs(Sig(st.flags), args).events, st.trace, r.trace, st, r);
  }
}
