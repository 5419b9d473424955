/** What the command line says: which arguments are flags, their values, or program arguments, and
    the order in which they end up. */
module Argv {
  import Text
  import Values
  import Flags
  import opened Names
  import Flagfile
  import opened Engine

  /** What one argument makes the parser do. */
  datatype Event = Do(assign: Flagfile.Assign) | Record(prim: Prim)

  /** `scanned`: flags, their separate values and a closing "--"; `rest`: what follows that "--";
      `moved`: the program arguments before it. */
  datatype Scan = Scan(events: seq<Event>, scanned: seq<string>, rest: seq<string>, moved: seq<string>)

  predicate LooksLikeFlag(arg: string) {
    |arg| >= 2 && arg[0] == '-'
  }

  /** An argument without its dashes, as the scanner classifies it. */
  datatype Kind =
    | ProgramArgument
    | Terminator
    | NoFlag(key: string, error: Flags.Error)
    | Complete(assign: Flagfile.Assign)
    | WantsValue(key: string, flag: string)

  function KindOf(sig: Signature, arg: string): Kind {
    if !LooksLikeFlag(arg) then ProgramArgument
    else if Flagfile.StripDashes(arg) == "" then Terminator
    else
      match SplitArgument(sig, Flagfile.StripDashes(arg))
      case Unresolved(key, e) => NoFlag(key, e)
      case Resolved(_, flag, Some(value)) => Complete(Flagfile.Assign(flag, value))
      case Resolved(key, flag, None) => WantsValue(key, flag)
  }

  function Consume(n: nat, args: seq<string>, event: Event, s: Scan): Scan
    requires n <= |args|
  {
    Scan([event] + s.events, args[..n] + s.scanned, s.rest, s.moved)
  }

  /** The scan of the arguments after the program name. */
  function ScanArgs(sig: Signature, args: seq<string>): Scan {
    if args == [] then Scan([], [], [], [])
    else
      match KindOf(sig, args[0])
      case ProgramArgument =>
        var s := ScanArgs(sig, args[1..]);
        s.(moved := [args[0]] + s.moved)
      case Terminator => Scan([], [args[0]], args[1..], [])
      case NoFlag(key, e) => Consume(1, args, Record(Unknown(key, e)), ScanArgs(sig, args[1..]))
      case Complete(a) => Consume(1, args, Do(a), ScanArgs(sig, args[1..]))
      case WantsValue(key, flag) =>
        if |args| == 1 then
          Consume(1, args, Record(Fail(key, Flags.MissingArgument(args[0]))), Scan([], [], [], []))
        else Consume(2, args, Do(Flagfile.Assign(flag, args[1])), ScanArgs(sig, args[2..]))
  }

  /** The final order of the command line. */
  function Layout(program: string, s: Scan): seq<string> {
    [program] + s.scanned + s.rest + s.moved
  }

  /** Carrying out the events; --flagfile and its like are followed as soon as they are seen. */
  function RunEvents(w: World, depth: nat, events: seq<Event>, st: PState): PState {
    if events == [] || st.stop != Running then st
    else RunEvents(w, depth, events[1..], RunEvent(w, depth, events[0], st))
  }

  function RunEvent(w: World, depth: nat, event: Event, st: PState): PState {
    match event
    case Do(a) => RunAssigns(w, depth, Flags.SetFlagsValue, [a], st)
    case Record(p) => Apply(w, Flags.SetFlagsValue, p, st)
  }

  /** ParseNewCommandLineFlags, as far as the flags are concerned. */
  function RunArgs(w: World, depth: nat, args: seq<string>, st: PState): PState {
    RunEvents(w, depth, ScanArgs(Sig(st.flags), args).events, st)
  }

  // ----- The order of the arguments -----

  /** `all` is `x` and `y` interleaved: both keep their order, nothing is lost or duplicated. */
  predicate Interleaves(all: seq<string>, x: seq<string>, y: seq<string>) {
    if all == [] then x == [] && y == []
    else || (x != [] && x[0] == all[0] && Interleaves(all[1..], x[1..], y))
         || (y != [] && y[0] == all[0] && Interleaves(all[1..], x, y[1..]))
  }

  lemma {:induction false} InterleavesSelf(x: seq<string>)
    ensures Interleaves(x, x, [])
  {
    if x != [] { InterleavesSelf(x[1..]); }
  }

  /** Flags and unscanned arguments keep their order, and so do the arguments moved behind them; no
      moved argument looks like a flag. */
  lemma {:induction false} ScanInterleaves(sig: Signature, args: seq<string>)
    ensures var s := ScanArgs(sig, args);
            && Interleaves(args, s.scanned + s.rest, s.moved)
            && forall i | 0 <= i < |s.moved| :: !LooksLikeFlag(s.moved[i])
  {
    hide KindOf, Interleaves;
    if args == [] {
      InterleavesSelf(args);
    } else {
      var s := ScanArgs(sig, args);
      var x := s.scanned + s.rest;
      match KindOf(sig, args[0])
      case ProgramArgument =>
        var t := ScanArgs(sig, args[1..]);
        ScanInterleaves(sig, args[1..]);
        NoFlagByKind(sig, args[0]);
        InterleavesMove(args[0], args[1..], x, t.moved);
        assert [args[0]] + args[1..] == args;
      case Terminator => InterleavesSelf(args); assert x == args;
      case NoFlag(_, _) => ScanInterleaves(sig, args[1..]); TakesOne(sig, args);
      case Complete(_) => ScanInterleaves(sig, args[1..]); TakesOne(sig, args);
      case WantsValue(_, _) =>
        if |args| == 1 {
          InterleavesSelf(args);
          assert x == args;
        } else {
          ScanInterleaves(sig, args[2..]);
          var t := ScanArgs(sig, args[2..]);
          var y := t.scanned + t.rest;
          FrontTwo(args, t.scanned, t.rest);
          InterleavesCons(args[1], args[2..], y, t.moved);
          InterleavesCons(args[0], [args[1]] + args[2..], [args[1]] + y, t.moved);
        }
    }
  }

  lemma FrontTwo(args: seq<string>, scanned: seq<string>, rest: seq<string>)
    requires |args| >= 2
    ensures args == [args[0]] + ([args[1]] + args[2..])
    ensures (args[..2] + scanned) + rest == [args[0]] + ([args[1]] + (scanned + rest))
  {
  }

  lemma NoFlagByKind(sig: Signature, arg: string)
    ensures KindOf(sig, arg).ProgramArgument? <==> !LooksLikeFlag(arg)
  {
  }

  lemma TakesOne(sig: Signature, args: seq<string>)
    requires args != [] && (KindOf(sig, args[0]).NoFlag? || KindOf(sig, args[0]).Complete?)
    ensures var s, t := ScanArgs(sig, args), ScanArgs(sig, args[1..]);
            && s.moved == t.moved
            && (Interleaves(args[1..], t.scanned + t.rest, t.moved) ==>
                  Interleaves(args, s.scanned + s.rest, s.moved))
  {
    hide KindOf;
    var s, t := ScanArgs(sig, args), ScanArgs(sig, args[1..]);
    assert s.scanned == [args[0]] + t.scanned && s.rest == t.rest && s.moved == t.moved;
    hide ScanArgs, Interleaves;
    assert s.scanned + s.rest == [args[0]] + (t.scanned + t.rest);
    assert args == [args[0]] + args[1..];
    if Interleaves(args[1..], t.scanned + t.rest, t.moved) {
      InterleavesCons(args[0], args[1..], t.scanned + t.rest, t.moved);
    }
  }

  lemma InterleavesCons(arg: string, all: seq<string>, x: seq<string>, y: seq<string>)
    requires Interleaves(all, x, y)
    ensures Interleaves([arg] + all, [arg] + x, y)
  {
    assert ([arg] + all)[1..] == all && ([arg] + x)[1..] == x;
  }

  lemma InterleavesMove(arg: string, all: seq<string>, x: seq<string>, y: seq<string>)
    requires Interleaves(all, x, y)
    ensures Interleaves([arg] + all, x, [arg] + y)
  {
    assert ([arg] + all)[1..] == all && ([arg] + y)[1..] == y;
  }

  lemma {:induction false} InterleavesPermutes(all: seq<string>, x: seq<string>, y: seq<string>)
    requires Interleaves(all, x, y)
    ensures multiset(all) == multiset(x + y)
  {
    if all != [] {
      assert all == [all[0]] + all[1..];
      if x != [] && x[0] == all[0] && Interleaves(all[1..], x[1..], y) {
        InterleavesPermutes(all[1..], x[1..], y);
        assert x + y == [x[0]] + (x[1..] + y);
      } else {
        InterleavesPermutes(all[1..], x, y[1..]);
        assert y == [y[0]] + y[1..];
        assert multiset(x + y) == multiset(x) + multiset{y[0]} + multiset(y[1..]);
        assert multiset(x + y[1..]) == multiset(x) + multiset(y[1..]);
      }
    }
  }

  /** The command line is permuted, never changed. */
  lemma LayoutPermutes(sig: Signature, program: string, args: seq<string>)
    ensures multiset(Layout(program, ScanArgs(sig, args))) == multiset([program] + args)
  {
    var s := ScanArgs(sig, args);
    ScanInterleaves(sig, args);
    InterleavesPermutes(args, s.scanned + s.rest, s.moved);
    assert Layout(program, s) == [program] + (s.scanned + s.rest + s.moved);
  }

  // ----- Scanning a permuted command line again -----

  /** The last flag wanted a value and there was none. */
  predicate EndsMissing(s: Scan) {
    s.events != [] && var e := s.events[|s.events| - 1]; e.Record? && e.prim.Fail?
  }

  predicate NoneLooksLikeFlag(args: seq<string>) {
    forall i | 0 <= i < |args| :: !LooksLikeFlag(args[i])
  }

  lemma {:induction false} AllMoved(sig: Signature, args: seq<string>)
    requires NoneLooksLikeFlag(args)
    ensures ScanArgs(sig, args) == Scan([], [], [], args)
  {
    if args != [] { AllMoved(sig, args[1..]); }
  }

  /** `s` is a first scan, `t` the scan of what it kept and then `extra` program arguments: the
      same, unless the last flag now finds its missing value in `extra`. */
  predicate RescanOf(s: Scan, t: Scan, extra: seq<string>) {
    if EndsMissing(s) && extra != [] then
      |t.events| == |s.events| && t.events[|t.events| - 1].Do?
    else
      t.events == s.events && t.scanned == s.scanned && t.rest + t.moved == s.rest + extra
  }

  function Again(sig: Signature, s: Scan, extra: seq<string>): Scan {
    ScanArgs(sig, s.scanned + s.rest + extra)
  }

  lemma {:induction false} Rescan(sig: Signature, args: seq<string>, extra: seq<string>)
    requires NoneLooksLikeFlag(extra)
    ensures var s := ScanArgs(sig, args); RescanOf(s, Again(sig, s, extra), extra)
  {
    hide KindOf, EndsMissing, RescanOf, Again;
    if args == [] {
      RescanEmpty(sig, extra);
    } else {
      match KindOf(sig, args[0])
      case ProgramArgument => Rescan(sig, args[1..], extra); RescanSkip(sig, args, extra);
      case Terminator => RescanEnd(sig, args, extra);
      case NoFlag(_, _) => Rescan(sig, args[1..], extra); RescanTake(sig, args, 1, extra);
      case Complete(_) => Rescan(sig, args[1..], extra); RescanTake(sig, args, 1, extra);
      case WantsValue(_, _) =>
        if |args| > 1 {
          Rescan(sig, args[2..], extra);
          RescanTake(sig, args, 2, extra);
        } else {
          RescanMissing(sig, args, extra);
        }
    }
  }

  lemma RescanEmpty(sig: Signature, extra: seq<string>)
    requires NoneLooksLikeFlag(extra)
    ensures var s := ScanArgs(sig, []); RescanOf(s, Again(sig, s, extra), extra)
  {
    AllMoved(sig, extra);
    assert [] + [] + extra == extra;
  }

  lemma RescanSkip(sig: Signature, args: seq<string>, extra: seq<string>)
    requires args != [] && KindOf(sig, args[0]).ProgramArgument?
    requires var t := ScanArgs(sig, args[1..]); RescanOf(t, Again(sig, t, extra), extra)
    ensures var s := ScanArgs(sig, args); RescanOf(s, Again(sig, s, extra), extra)
  {
    hide KindOf, Again;
    var s, t := ScanArgs(sig, args), ScanArgs(sig, args[1..]);
    assert s == t.(moved := s.moved);
    SameAgain(sig, s, t, extra);
  }

  lemma SameAgain(sig: Signature, s: Scan, t: Scan, extra: seq<string>)
    requires s == t.(moved := s.moved)
    ensures Again(sig, s, extra) == Again(sig, t, extra)
  {
    hide ScanArgs;
  }

  lemma RescanEnd(sig: Signature, args: seq<string>, extra: seq<string>)
    requires args != [] && KindOf(sig, args[0]).Terminator?
    ensures var s := ScanArgs(sig, args); RescanOf(s, Again(sig, s, extra), extra)
  {
    hide KindOf, EndsMissing;
    var s := ScanArgs(sig, args);
    assert s == Scan([], [args[0]], args[1..], []) && !EndsMissing(s) by { NoEvents(s); }
    var all := s.scanned + s.rest + extra;
    assert all[0] == args[0] && all[1..] == s.rest + extra;
  }

  lemma NoEvents(s: Scan)
    ensures s.events == [] ==> !EndsMissing(s)
  {
  }

  lemma RescanMissing(sig: Signature, args: seq<string>, extra: seq<string>)
    requires |args| == 1 && KindOf(sig, args[0]).WantsValue? && NoneLooksLikeFlag(extra)
    ensures var s := ScanArgs(sig, args); RescanOf(s, Again(sig, s, extra), extra)
  {
    hide KindOf, RescanOf;
    var s := ScanArgs(sig, args);
    assert s.scanned == args && s.rest == [] && |s.events| == 1 && EndsMissing(s);
    assert s.scanned + s.rest + extra == args + extra;
    if extra == [] {
      assert args + extra == args;
      MissingRescanned(s, s, extra);
    } else {
      hide EndsMissing;
      FoundValue(sig, args, extra);
      MissingRescanned(s, ScanArgs(sig, args + extra), extra);
    }
  }

  lemma FoundValue(sig: Signature, args: seq<string>, extra: seq<string>)
    requires |args| == 1 && KindOf(sig, args[0]).WantsValue? && NoneLooksLikeFlag(extra) && extra != []
    ensures var t := ScanArgs(sig, args + extra); |t.events| == 1 && t.events[0].Do?
  {
    hide KindOf;
    AllMoved(sig, extra[1..]);
    var all := args + extra;
    assert all[0] == args[0] && all[1] == extra[0] && all[2..] == extra[1..];
  }

  lemma MissingRescanned(s: Scan, t: Scan, extra: seq<string>)
    requires EndsMissing(s) && s.rest == [] && s.moved == [] && |s.events| == 1
    requires if extra == [] then t == s else |t.events| == 1 && t.events[0].Do?
    ensures RescanOf(s, t, extra)
  {
  }

  predicate TakesAt(sig: Signature, args: seq<string>, n: nat)
    requires args != []
  {
    var k := KindOf(sig, args[0]);
    (n == 1 && (k.NoFlag? || k.Complete?)) || (n == 2 && |args| >= 2 && k.WantsValue?)
  }

  /** The event of taking the first one or two arguments. */
  function TakeEvent(sig: Signature, args: seq<string>, n: nat): Event
    requires args != [] && TakesAt(sig, args, n)
  {
    match KindOf(sig, args[0])
    case NoFlag(key, e) => Record(Unknown(key, e))
    case Complete(a) => Do(a)
    case WantsValue(_, flag) => Do(Flagfile.Assign(flag, args[1]))
  }

  lemma TakeScan(sig: Signature, args: seq<string>, n: nat)
    requires args != [] && TakesAt(sig, args, n) && n <= |args|
    ensures ScanArgs(sig, args) ==
            Consume(n, args, TakeEvent(sig, args, n), ScanArgs(sig, args[n..]))
    ensures EndsMissing(ScanArgs(sig, args)) == EndsMissing(ScanArgs(sig, args[n..]))
  {
    hide KindOf;
    var s, t := ScanArgs(sig, args), ScanArgs(sig, args[n..]);
    assert s == Consume(n, args, TakeEvent(sig, args, n), t);
    assert t.events != [] ==> s.events[|s.events| - 1] == t.events[|t.events| - 1];
    if t.events == [] && s.events[0].Record? && s.events[0].prim.Fail? {
      assert false;
    }
  }

  lemma RescanTake(sig: Signature, args: seq<string>, n: nat, extra: seq<string>)
    requires args != [] && TakesAt(sig, args, n) && n <= |args|
    requires var t := ScanArgs(sig, args[n..]); RescanOf(t, Again(sig, t, extra), extra)
    ensures var s := ScanArgs(sig, args); RescanOf(s, Again(sig, s, extra), extra)
  {
    hide KindOf, ScanArgs;
    TakeScan(sig, args, n);
    var s, t := ScanArgs(sig, args), ScanArgs(sig, args[n..]);
    var tail := t.scanned + t.rest + extra;
    assert s.scanned + s.rest + extra == args[..n] + tail;
    var all := args[..n] + tail;
    assert all[0] == args[0] && all[n..] == tail && all[..n] == args[..n];
    assert n == 2 ==> all[1] == args[1];
    assert TakesAt(sig, all, n);
    TakeScan(sig, all, n);
    RescanConsume(args[..n], TakeEvent(sig, args, n), s, t, Again(sig, s, extra), Again(sig, t, extra), extra);
  }

  /** Putting the same front on both scans. */
  lemma RescanConsume(
      front: seq<string>, e: Event, s: Scan, t: Scan, s2: Scan, t2: Scan, extra: seq<string>)
    requires s == Consume(|front|, front, e, t) && s2 == Consume(|front|, front, e, t2)
    requires EndsMissing(s) == EndsMissing(t) && RescanOf(t, t2, extra)
    ensures RescanOf(s, s2, extra)
  {
    hide EndsMissing;
    if EndsMissing(t) && extra != [] {
      assert s2.events[|s2.events| - 1] == t2.events[|t2.events| - 1] by { MissingHasEvents(t); }
      MissingHasEvents(t);
    }
  }

  lemma MissingHasEvents(s: Scan)
    requires EndsMissing(s)
    ensures s.events != []
  {
  }

  /** Parsing a command line that was already permuted reads the same assignments, except when the
      last flag lacked its value and there are program arguments it can now take one from. */
  lemma ReparseSame(sig: Signature, args: seq<string>)
    ensures var s := ScanArgs(sig, args);
            var t := Again(sig, s, s.moved);
            && (t.events == s.events <==> !(EndsMissing(s) && s.moved != []))
            && (t.events == s.events ==>
                  t.scanned + t.rest + t.moved == s.scanned + s.rest + s.moved)
  {
    hide ScanArgs, Again, EndsMissing, RescanOf;
    var s := ScanArgs(sig, args);
    ScanInterleaves(sig, args);
    Rescan(sig, args, s.moved);
    ReparseEvents(s, Again(sig, s, s.moved));
  }

  lemma ReparseEvents(s: Scan, t: Scan)
    requires RescanOf(s, t, s.moved)
    ensures t.events == s.events <==> !(EndsMissing(s) && s.moved != [])
    ensures t.events == s.events ==> t.scanned + t.rest + t.moved == s.scanned + s.rest + s.moved
  {
    assert t.scanned + (t.rest + t.moved) == t.scanned + t.rest + t.moved;
    assert s.scanned + (s.rest + s.moved) == s.scanned + s.rest + s.moved;
  }

  /** A flag that lacked its value finds one among the arguments that were moved behind it. */
  lemma ReparseSwallows(sig: Signature)
    requires "n" in sig && sig["n"] == Values.FvInt32
    ensures var s := ScanArgs(sig, ["x", "--n"]);
            && s == Scan([Record(Fail("n", Flags.MissingArgument("--n")))], ["--n"], [], ["x"])
            && Again(sig, s, s.moved).events == [Do(Flagfile.Assign("n", "x"))]
  {
    assert !LooksLikeFlag("x") && KindOf(sig, "x") == ProgramArgument;
    NamedFlag(sig);
    hide KindOf;
    assert ["x", "--n"][1..] == ["--n"] && ["--n", "x"][2..] == [];
    assert ScanArgs(sig, ["--n"]) == Scan([Record(Fail("n", Flags.MissingArgument("--n")))], ["--n"], [], []);
    var s := ScanArgs(sig, ["x", "--n"]);
    assert s.moved == ["x"] && s.scanned == ["--n"] && s.rest == [];
    assert s.scanned + s.rest + s.moved == ["--n", "x"];
    assert ScanArgs(sig, ["--n", "x"]).events == [Do(Flagfile.Assign("n", "x"))] + ScanArgs(sig, []).events;
  }

  lemma NamedFlag(sig: Signature)
    requires "n" in sig && sig["n"] == Values.FvInt32
    ensures KindOf(sig, "--n") == WantsValue("n", "n")
  {
    assert "--n"[2..] == "n" && '=' !in "n";
    assert "n"[..1] == "n";
    assert SplitArgument(sig, "n") == Resolved("n", "n", Text.None);
  }
}
