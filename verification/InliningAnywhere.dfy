/** --flagfile, --fromenv and --tryfromenv in the middle of a longer command line. */
module InliningAnywhere {
  import Text
  import Flags
  import opened Names
  import Flagfile
  import opened Engine
  import ParseProofs
  import opened Argv
  import ArgvProofs
  import opened Inlining
  import Termination

  // ----- Scanning a command line in parts -----

  /** The arguments contain a bare "--" that ends the scan. */
  predicate Closed(sig: Signature, args: seq<string>) {
    args != [] &&
    match KindOf(sig, args[0])
    case Terminator => true
    case WantsValue(_, _) => |args| > 1 && Closed(sig, args[2..])
    case _ => Closed(sig, args[1..])
  }

  /** Unless the first part ends with a flag that lacks its value, the second part is scanned as it would
      be alone; or not at all, behind a bare "--". */
  lemma {:induction false} ScanParts(sig: Signature, before: seq<string>, more: seq<string>)
    requires !EndsMissing(ScanArgs(sig, before))
    ensures ScanArgs(sig, before + more).events ==
      ScanArgs(sig, before).events + if Closed(sig, before) then [] else ScanArgs(sig, more).events
    decreases |before|, 1
  {
    hide KindOf, EndsMissing;
    if before == [] {
      assert before + more == more;
    } else {
      var all := before + more;
      assert all[0] == before[0] && all[1..] == before[1..] + more;
      match KindOf(sig, before[0])
      case ProgramArgument =>
        SameEnd(ScanArgs(sig, before), ScanArgs(sig, before[1..]));
        ScanParts(sig, before[1..], more);
      case Terminator =>
      case NoFlag(_, _) => PartsTake(sig, before, more, 1);
      case Complete(_) => PartsTake(sig, before, more, 1);
      case WantsValue(key, _) =>
        if |before| == 1 {
          OneMissing(sig, before);
        } else {
          PartsTake(sig, before, more, 2);
        }
    }
  }

  lemma {:induction false} PartsTake(sig: Signature, before: seq<string>, more: seq<string>, n: nat)
    requires before != [] && TakesAt(sig, before, n) && n <= |before| && !EndsMissing(ScanArgs(sig, before))
    ensures ScanArgs(sig, before + more).events ==
      ScanArgs(sig, before).events + if Closed(sig, before) then [] else ScanArgs(sig, more).events
    decreases |before|, 0
  {
    hide ScanArgs, KindOf, EndsMissing, Closed, TakesAt, TakeEvent;
    SameTaken(sig, before, more, n);
    TakeScan(sig, before, n);
    TakeScan(sig, before + more, n);
    ScanParts(sig, before[n..], more);
    EventsTaken(sig, before, more, n);
  }

  lemma EventsTaken(sig: Signature, before: seq<string>, more: seq<string>, n: nat)
    requires before != [] && TakesAt(sig, before, n) && n <= |before|
    requires var s, t := ScanArgs(sig, before), ScanArgs(sig, before[n..]);
             s == Consume(n, before, TakeEvent(sig, before, n), t)
    requires var s, t := ScanArgs(sig, before + more), ScanArgs(sig, before[n..] + more);
             && TakesAt(sig, before + more, n) && TakeEvent(sig, before + more, n) == TakeEvent(sig, before, n)
             && s == Consume(n, before + more, TakeEvent(sig, before, n), t)
             && t.events == ScanArgs(sig, before[n..]).events +
                  if Closed(sig, before) then [] else ScanArgs(sig, more).events
    ensures ScanArgs(sig, before + more).events ==
      ScanArgs(sig, before).events + if Closed(sig, before) then [] else ScanArgs(sig, more).events
  {
    hide ScanArgs, KindOf, Closed, TakesAt, TakeEvent;
  }

  /** What is taken from the front does not depend on what is added behind. */
  lemma SameTaken(sig: Signature, before: seq<string>, more: seq<string>, n: nat)
    requires before != [] && TakesAt(sig, before, n) && n <= |before|
    ensures TakesAt(sig, before + more, n) && TakeEvent(sig, before + more, n) == TakeEvent(sig, before, n)
    ensures (before + more)[n..] == before[n..] + more
    ensures Closed(sig, before) == Closed(sig, before[n..])
  {
    hide KindOf;
    var all := before + more;
    assert all[0] == before[0] && (n == 2 ==> all[1] == before[1]);
  }

  lemma SameEnd(s: Scan, t: Scan)
    requires s.events == t.events
    ensures EndsMissing(s) == EndsMissing(t)
  {
  }

  lemma OneMissing(sig: Signature, args: seq<string>)
    requires |args| == 1 && KindOf(sig, args[0]).WantsValue?
    ensures EndsMissing(ScanArgs(sig, args))
  {
    hide KindOf;
  }

  // ----- Running events in parts -----

  lemma {:induction false} RunEventsConcat(w: World, depth: nat, a: seq<Event>, b: seq<Event>, st: PState)
    ensures RunEvents(w, depth, a + b, st) == RunEvents(w, depth, b, RunEvents(w, depth, a, st))
  {
    hide RunEvent;
    if a == [] {
      assert a + b == b;
    } else {
      assert (a + b)[0] == a[0] && (a + b)[1..] == a[1..] + b;
      if st.stop == Running { RunEventsConcat(w, depth, a[1..], b, RunEvent(w, depth, a[0], st)); }
    }
  }

  lemma {:induction false} RunEventsDeeper(w: World, depth: nat, events: seq<Event>, st: PState)
    requires RunEvents(w, depth, events, st).stop != Overflowed
    ensures RunEvents(w, depth + 1, events, st) == RunEvents(w, depth, events, st)
  {
    hide RunAssigns, Apply;
    if events != [] && st.stop == Running {
      var st1 := RunEvent(w, depth, events[0], st);
      assert st1.stop != Overflowed;
      if events[0].Do? { Termination.DeeperSame(w, depth, Flags.SetFlagsValue, [events[0].assign], st); }
      RunEventsDeeper(w, depth, events[1..], st1);
    }
  }

  lemma {:induction false} RunEventsSameBut(w: World, depth: nat, x: string, events: seq<Event>, s: PState, t: PState)
    requires SameBut(x, s, t)
    ensures SameBut(x, RunEvents(w, depth, events, s), RunEvents(w, depth, events, t))
  {
    SameButStops(x, s, t);
    hide SameBut, RunAssigns, Apply;
    if events != [] && s.stop == Running {
      match events[0] {
        case Do(a) => RunSameBut(w, depth, x, [a], s, t);
        case Record(p) => ApplySameBut(w, x, p, s, t);
      }
      RunEventsSameBut(w, depth, x, events[1..], RunEvent(w, depth, events[0], s), RunEvent(w, depth, events[0], t));
    }
  }

  lemma SameButStops(x: string, s: PState, t: PState)
    requires SameBut(x, s, t)
    ensures s.stop == t.stop
  {
  }

  lemma SameButSelf(x: string, s: PState)
    ensures SameBut(x, s, s)
  {
  }

  // ----- One option among others -----

  /** `option` is an assignment to the recursive flag `x`, and `mid` the options it stands for. */
  ghost predicate StandsFor(w: World, sig: Signature, x: string, text: string, option: string, mid: seq<string>) {
    && IsRecursive(x) && KindOf(sig, option) == Complete(Flagfile.Assign(x, text))
    && RefsOf(x, text).Some? && AllExpand(w, sig, RefsOf(x, text).value)
    && forall more :: ScanArgs(sig, mid + more).events ==
         Dos(AllAssigns(w, sig, RefsOf(x, text).value)) + ScanArgs(sig, more).events
  }

  lemma ScanOption(w: World, sig: Signature, x: string, text: string, option: string, mid: seq<string>, after: seq<string>)
    requires StandsFor(w, sig, x, text, option, mid)
    ensures ScanArgs(sig, [option] + after).events == [Do(Flagfile.Assign(x, text))] + ScanArgs(sig, after).events
    ensures ScanArgs(sig, mid + after).events ==
      Dos(AllAssigns(w, sig, RefsOf(x, text).value)) + ScanArgs(sig, after).events
  {
    hide KindOf, AllExpand, AllAssigns, RefsOf;
    assert ([option] + after)[0] == option && ([option] + after)[1..] == after;
  }

  /** The option in the middle, from the state that the arguments before it lead to. */
  lemma MiddleSameBut(
      w: World, depth: nat, x: string, text: string, option: string, mid: seq<string>, st0: PState, st: PState)
    requires WellFormed(st0.flags) && ParseProofs.KeepsFlags(Flags.SetFlagsValue, st0, st)
    requires StandsFor(w, Sig(st0.flags), x, text, option, mid)
    requires x in st0.flags && ParseProofs.Accepts(w, x, st0.flags[x], text)
    ensures var all := AllAssigns(w, Sig(st0.flags), RefsOf(x, text).value);
            SameBut(x, RunEvents(w, depth + 1, [Do(Flagfile.Assign(x, text))], st), RunEvents(w, depth, Dos(all), st))
  {
    var sig, refs := Sig(st0.flags), RefsOf(x, text).value;
    ParseProofs.KeptShapes(Flags.SetFlagsValue, st0, st);
    ArgvProofs.SameSigKept(st0, st);
    ParseProofs.SameShapeAccepts(w, x, st0.flags[x], st.flags[x]);
    ParseProofs.KeptWellFormed(Flags.SetFlagsValue, st0, st);
    hide WellFormed, Sig, ParseProofs.KeepsFlags, RunAssigns, ScanArgs, RefsOf, AllExpand, AllAssigns,
      KindOf, ParseProofs.Accepts, ParseProofs.SameShapes;
    if st.stop == Running {
      var inner := AllAssigns(w, sig, refs);
      assert mid + [] == mid;
      NoMoreArgs(sig, mid);
      assert ScanArgs(sig, mid + []).events == Dos(inner) + ScanArgs(sig, []).events;
      InlineRefs(w, depth, x, text, mid, st);
      SingleEvent(w, depth + 1, Flagfile.Assign(x, text), st);
      assert RunArgs(w, depth, mid, st) == RunEvents(w, depth, Dos(inner), st);
    } else {
      SameButSelf(x, st);
    }
  }

  lemma SingleEvent(w: World, depth: nat, a: Flagfile.Assign, st: PState)
    requires st.stop == Running
    ensures RunEvents(w, depth, [Do(a)], st) == RunAssigns(w, depth, Flags.SetFlagsValue, [a], st)
  {
    hide RunAssigns;
    assert [Do(a)][1..] == [];
  }

  /** Replacing the option by what it stands for changes nothing but the recursive flag itself, whatever
      stands before and after it on the command line, as long as the flag before it does not lack its value,
      which the next argument would then be, and the stack suffices. */
  lemma OptionInlines(
      w: World, depth: nat, x: string, text: string, option: string, mid: seq<string>,
      before: seq<string>, after: seq<string>, st: PState)
    requires WellFormed(st.flags) && StandsFor(w, Sig(st.flags), x, text, option, mid)
    requires x in st.flags && ParseProofs.Accepts(w, x, st.flags[x], text)
    requires !EndsMissing(ScanArgs(Sig(st.flags), before))
    requires RunArgs(w, depth, before + (mid + after), st).stop != Overflowed
    ensures SameBut(x, RunArgs(w, depth + 1, before + ([option] + after), st),
                       RunArgs(w, depth, before + (mid + after), st))
  {
    var sig := Sig(st.flags);
    var front, tail := ScanArgs(sig, before).events, ScanArgs(sig, after).events;
    var inner := Dos(AllAssigns(w, sig, RefsOf(x, text).value));
    ArgvProofs.ScanLegal(sig, before);
    hide WellFormed, Sig, ScanArgs, RunEvents, RefsOf, AllAssigns, EndsMissing, StandsFor, SameBut, ParseProofs.Accepts,
      ArgvProofs.LegalEvents, ParseProofs.KeepsFlags, Closed;
    ScanParts(sig, before, [option] + after);
    ScanParts(sig, before, mid + after);
    ScanOption(w, sig, x, text, option, mid, after);
    if Closed(sig, before) {
      assert front + [] == front;
      RunEventsDeeper(w, depth, front, st);
      SameButSelf(x, RunEvents(w, depth, front, st));
    } else {
      var s := RunEvents(w, depth, front, st);
      RunEventsConcat(w, depth, front, inner + tail, st);
      RunEventsConcat(w, depth, inner, tail, s);
      RunEventsConcat(w, depth + 1, front, [Do(Flagfile.Assign(x, text))] + tail, st);
      var v := RunEvents(w, depth, inner, s);
      StopStays(w, depth, tail, v);
      StopStays(w, depth, inner, s);
      RunEventsDeeper(w, depth, front, st);
      RunEventsDeeper(w, depth, tail, v);
      RunEventsConcat(w, depth + 1, [Do(Flagfile.Assign(x, text))], tail, s);
      ArgvProofs.KeepsFlagsStable(w, st);
      ArgvProofs.RunEventsKeeps(w, depth, front, st, u => ParseProofs.KeepsFlags(Flags.SetFlagsValue, st, u));
      MiddleSameBut(w, depth, x, text, option, mid, st, s);
      RunEventsSameBut(w, depth + 1, x, tail, RunEvents(w, depth + 1, [Do(Flagfile.Assign(x, text))], s), v);
    }
  }

  lemma StopStays(w: World, depth: nat, events: seq<Event>, st: PState)
    ensures RunEvents(w, depth, events, st).stop != Overflowed ==> st.stop != Overflowed
  {
  }

  lemma OptionKind(sig: Signature, x: string, text: string)
    requires x in sig && IsRecursive(x)
    ensures KindOf(sig, "--" + (x + "=" + text)) == Complete(Flagfile.Assign(x, text))
  {
    var arg := "--" + (x + "=" + text);
    assert arg[2..] == x + "=" + text;
    assert FindFlag(sig, x) == Text.Some(x);
    SplitNameValue(sig, x, text);
    hide SplitArgument;
  }

  /** --flagfile=f,g,... anywhere on a command line is equivalent to the flag lines of those files in its
      place. */
  lemma FlagfileInlinesAnywhere(
      w: World, depth: nat, text: string, before: seq<string>, after: seq<string>, st: PState)
    requires WellFormed(st.flags)
    requires ParseProofs.Accepts(w, FLAGFILE, st.flags[FLAGFILE], text)
    requires FlagList(text).Some? && SimpleFiles(w, Sig(st.flags), FlagList(text).value)
    requires !EndsMissing(ScanArgs(Sig(st.flags), before))
    requires RunArgs(w, depth, before + (FileArgs(w, FlagList(text).value) + after), st).stop != Overflowed
    ensures SameBut(FLAGFILE, RunArgs(w, depth + 1, before + (["--" + (FLAGFILE + "=" + text)] + after), st),
                              RunArgs(w, depth, before + (FileArgs(w, FlagList(text).value) + after), st))
  {
    KnownInSig(st.flags, FLAGFILE);
    hide WellFormed, Sig, RunArgs, SimpleFiles, FileArgs, AllAssigns, AllExpand, FlagList, ScanArgs, KindOf;
    var sig, files := Sig(st.flags), FlagList(text).value;
    OptionKind(sig, FLAGFILE, text);
    assert RefsOf(FLAGFILE, text).value == ParserSteps.ListRefs(FLAGFILE, files);
    var mid := FileArgs(w, files);
    SimpleFilesScan(w, sig, files, []);
    forall more ensures ScanArgs(sig, mid + more).events ==
      Dos(AllAssigns(w, sig, RefsOf(FLAGFILE, text).value)) + ScanArgs(sig, more).events
    {
      SimpleFilesScan(w, sig, files, more);
    }
    OptionInlines(w, depth, FLAGFILE, text, "--" + (FLAGFILE + "=" + text), mid, before, after, st);
  }

  /** --fromenv=a,b anywhere on a command line is equivalent to --a=... --b=... in its place; so is
      --tryfromenv. */
  lemma FromenvInlinesAnywhere(
      w: World, depth: nat, x: string, text: string, before: seq<string>, after: seq<string>, st: PState)
    requires WellFormed(st.flags) && (x == FROMENV || x == TRYFROMENV)
    requires ParseProofs.Accepts(w, x, st.flags[x], text)
    requires FlagList(text).Some? && AllInEnvironment(w, Sig(st.flags), x, FlagList(text).value)
    requires !EndsMissing(ScanArgs(Sig(st.flags), before))
    requires RunArgs(w, depth, before + (EnvArgs(w, FlagList(text).value) + after), st).stop != Overflowed
    ensures SameBut(x, RunArgs(w, depth + 1, before + (["--" + (x + "=" + text)] + after), st),
                       RunArgs(w, depth, before + (EnvArgs(w, FlagList(text).value) + after), st))
  {
    KnownInSig(st.flags, x);
    hide WellFormed, Sig, RunArgs, EnvArgs, AllAssigns, AllExpand, FlagList, ScanArgs, KindOf, AllInEnvironment;
    var sig, names := Sig(st.flags), FlagList(text).value;
    OptionKind(sig, x, text);
    assert RefsOf(x, text).value == ParserSteps.ListRefs(x, names);
    var mid := EnvArgs(w, names);
    EnvScan(w, sig, x, names, []);
    forall more ensures ScanArgs(sig, mid + more).events ==
      Dos(AllAssigns(w, sig, RefsOf(x, text).value)) + ScanArgs(sig, more).events
    {
      EnvScan(w, sig, x, names, more);
    }
    OptionInlines(w, depth, x, text, "--" + (x + "=" + text), mid, before, after, st);
  }

  lemma KnownInSig(flags: FlagTable, x: string)
    requires WellFormed(flags) && IsRecursive(x)
    ensures x in flags && x in Sig(flags)
  {
  }
}
