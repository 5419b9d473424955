/** The public entry points: GetAllFlags, SetCommandLineOptionWithMode, FlagSaver scopes,
    ReadFlagsFromString and ParseCommandLineFlags. A ghost `table` is the flags as they stand. */
module Api {
  import Text
  import opened Values
  import opened Flags
  import opened Names
  import Flagfile
  import opened Engine
  import ParseProofs
  import Argv
  import ErrorReports
  import CommandLine
  import opened Registry
  import Parser
  import Saver
  import RoundTrip

  // ----- Looking at flags -----

  function TouchAll(table: FlagTable): FlagTable {
    map n | n in table :: Touch(table[n])
  }

  /** `info` describes a registered flag as it is in `table`. */
  ghost predicate DescribesOne(info: CommandLineFlagInfo, flags: map<string, CommandLineFlag>, table: FlagTable) {
    && info.name in table && info.name in flags
    && flags[info.name].name == info.name && info == InfoOf(flags[info.name], table[info.name])
  }

  /** `infos` describes the flags outside `todo`, each once. */
  ghost predicate DescribesBut(
    infos: seq<CommandLineFlagInfo>, flags: map<string, CommandLineFlag>, table: FlagTable, todo: set<string>)
  {
    && (forall i | 0 <= i < |infos| :: DescribesOne(infos[i], flags, table) && infos[i].name !in todo)
    && (forall i, j | 0 <= i < j < |infos| :: infos[i].name != infos[j].name)
    && (forall n | n in table && n !in todo :: exists i :: 0 <= i < |infos| && infos[i].name == n)
  }

  /** `infos` describes every flag exactly once. */
  ghost predicate Describes(infos: seq<CommandLineFlagInfo>, flags: map<string, CommandLineFlag>, table: FlagTable) {
    DescribesBut(infos, flags, table, {})
  }

  lemma DescribesOneMore(
      infos: seq<CommandLineFlagInfo>, flags: map<string, CommandLineFlag>, table: FlagTable,
      todo: set<string>, n: string)
    requires DescribesBut(infos, flags, table, todo) && n in todo && n in table
    requires n in flags && flags[n].name == n
    ensures DescribesBut(infos + [InfoOf(flags[n], table[n])], flags, table, todo - {n})
  {
    hide ToString;
    var more := infos + [InfoOf(flags[n], table[n])];
    assert more[|infos|].name == n;
    forall m | m in table && m !in todo - {n} ensures exists i :: 0 <= i < |more| && more[i].name == m {
      if m != n {
        var i :| 0 <= i < |infos| && infos[i].name == m;
        assert more[i].name == m;
      }
    }
  }

  /** The flags outside `todo` have had their modified bit brought up to date. */
  function TouchedBut(table: FlagTable, todo: set<string>): FlagTable {
    map n | n in table :: if n in todo then table[n] else Touch(table[n])
  }

  /** GetAllFlags; the order of the result, which the source sorts, is left open. */
  method GetAllFlags(registry: FlagRegistry, ghost table: FlagTable) returns (infos: seq<CommandLineFlagInfo>)
    requires registry.Valid() && registry.Shows(table)
    modifies registry.Repr
    ensures registry.Valid() && registry.Shows(TouchAll(table))
    ensures Describes(infos, registry.flags, table)
  {
    hide FlagRegistry.Valid, FlagRegistry.Shows, DescribesBut;
    registry.ShownKeys(table);
    infos := [];
    var todo := registry.flags.Keys;
    assert TouchedBut(table, todo) == table;
    assert DescribesBut(infos, registry.flags, table, todo) by { DescribesNone(registry.flags, table); }
    while todo != {}
      invariant registry.Valid() && registry.Shows(TouchedBut(table, todo)) && unchanged(registry)
      invariant todo <= registry.flags.Keys && table.Keys == registry.flags.Keys
      invariant DescribesBut(infos, registry.flags, table, todo)
      decreases |todo|
    {
      var n :| n in todo;
      registry.FlagFacts(TouchedBut(table, todo), n);
      var info := FlagInfo(registry, n, TouchedBut(table, todo));
      assert TouchedBut(table, todo - {n}) == TouchedBut(table, todo)[n := Touch(table[n])];
      DescribesOneMore(infos, registry.flags, table, todo, n);
      infos := infos + [info];
      todo := todo - {n};
    }
    assert TouchedBut(table, {}) == TouchAll(table);
  }

  lemma DescribesNone(flags: map<string, CommandLineFlag>, table: FlagTable)
    ensures DescribesBut([], flags, table, table.Keys)
  {
  }

  /** GetCommandLineFlagInfo on a registered name. */
  method FlagInfo(registry: FlagRegistry, n: string, ghost table: FlagTable) returns (info: CommandLineFlagInfo)
    requires registry.Valid() && registry.Shows(table) && n in registry.flags && n in table
    modifies registry.Repr
    ensures registry.Valid() && registry.Shows(table[n := Touch(table[n])]) && unchanged(registry)
    ensures info == InfoOf(registry.flags[n], table[n])
  {
    registry.FlagFacts(table, n);
    info := registry.FillInfo(n, table);
  }

  /** CommandlineFlagsIntoString: a text that prints every flag once, with its current value. */
  method CommandlineFlagsIntoString(registry: FlagRegistry, ghost table: FlagTable)
    returns (text: string, ghost printed: seq<RoundTrip.Printed>)
    requires registry.Valid() && registry.Shows(table)
    modifies registry.Repr
    ensures registry.Valid() && registry.Shows(TouchAll(table))
    ensures text == RoundTrip.PrintFlags(printed) && RoundTrip.Prints(printed, table)
  {
    hide FlagRegistry.Valid, FlagRegistry.Shows, Describes;
    var infos := GetAllFlags(registry, table);
    var pairs := NamesAndValues(infos);
    text := RoundTrip.TheseCommandlineFlagsIntoString(pairs);
    printed := pairs;
    DescribedIsPrinted(infos, registry.flags, table);
  }

  function NamesAndValues(infos: seq<CommandLineFlagInfo>): seq<RoundTrip.Printed> {
    seq(|infos|, i requires 0 <= i < |infos| => RoundTrip.Printed(infos[i].name, infos[i].currentValue))
  }

  lemma DescribedIsPrinted(infos: seq<CommandLineFlagInfo>, flags: map<string, CommandLineFlag>, table: FlagTable)
    requires Describes(infos, flags, table)
    ensures RoundTrip.Prints(NamesAndValues(infos), table)
  {
    var ps := NamesAndValues(infos);
    forall n | n in table ensures exists i :: 0 <= i < |ps| && ps[i].name == n {
      var i :| 0 <= i < |infos| && infos[i].name == n;
      assert ps[i].name == n;
    }
  }

  // ----- One option -----

  /** What an operation comes to: whether it ended the program, and the flags it left. */
  datatype Outcome = Outcome(stop: Stop, table: FlagTable)

  function OptionOutcome(
    w: World, depth: nat, table: FlagTable, name: string, value: Text.Option<string>, mode: Mode): Outcome
  {
    var st := PState(table, map[], {}, [], Running);
    match FindFlag(Sig(table), name)
    case None => Outcome(Running, table)
    case Some(n) =>
      var r := match value
               case Some(text) => RunAssigns(w, depth, mode, [Flagfile.Assign(n, text)], st)
               case None => FollowOption(w, depth, mode, n, st);
      Outcome(r.stop, r.flags)
  }

  /** SetCommandLineOptionWithMode: a name that is not registered does nothing, and neither does a
      missing value unless the flag is recursive. `stop` tells whether a malformed list or a
      missing file ended the program. */
  method SetCommandLineOptionWithMode(
      world: World, registry: FlagRegistry, name: string, value: Text.Option<string>, mode: Mode, depth: nat,
      ghost table: FlagTable)
    returns (stop: Stop, ghost after: FlagTable)
    requires registry.Valid() && registry.Shows(table) && WellFormed(table)
    modifies registry.Repr
    ensures registry.Valid() && registry.Shows(after) && unchanged(registry)
    ensures WellFormed(after) && Sig(after) == Sig(table)
    ensures Outcome(stop, after) == OptionOutcome(world, depth, table, name, value, mode)
  {
    hide FlagRegistry.Valid, FlagRegistry.Shows, WellFormed, FindFlag, RunAssigns, FollowOption;
    var flag := registry.FindFlagLocked(name, table);
    if flag == null {
      return Running, table;
    }
    var parser := new Parser.CommandLineFlagParser(world, registry, table);
    registry.FlagFacts(table, flag.name);
    parser.ProcessSingleOptionLocked(flag, value, mode, depth);
    stop, after := parser.stop, parser.st.flags;
  }

  // ----- FlagSaver -----

  /** What a program may do to its flags. */
  datatype UserOp =
    | SetOption(name: string, value: Text.Option<string>, mode: Mode)
    | Write(name: string, v: Value)                      // FLAGS_name = v
    | AddOrRemoveValidator(name: string, fn: Text.Option<FnPtr>)
    | LookAt(name: string)
    | Register(name: string, help: string, filename: string, v: Value) // a library is loaded that defines a flag

  predicate TypedOp(sig: Signature, op: UserOp) {
    && (op.Write? ==> op.name in sig && TypeOf(op.v) == sig[op.name])
    && ((op.AddOrRemoveValidator? || op.LookAt?) ==> op.name in sig)
  }

  /** The registered names and types after an operation. */
  function NextSig(sig: Signature, op: UserOp): Signature {
    if op.Register? && op.name !in sig then sig[op.name := TypeOf(op.v)] else sig
  }

  /** Every operation respects the types of the flags there are by then. */
  predicate TypedOps(sig: Signature, ops: seq<UserOp>)
    decreases |ops|
  {
    ops == [] || (TypedOp(sig, ops[0]) && TypedOps(NextSig(sig, ops[0]), ops[1..]))
  }

  /** The flags after one operation. A second definition of a flag ends the program. */
  function OpOutcome(w: World, depth: nat, table: FlagTable, op: UserOp): Outcome {
    match op
    case SetOption(name, value, mode) => OptionOutcome(w, depth, table, name, value, mode)
    case Register(name, _, _, v) =>
      if name in table then Outcome(Exited, table)
      else Outcome(Running, table[name := FlagState(v, v, false, Text.None)])
    case _ =>
      if op.name !in table then Outcome(Running, table)
      else
        var f := table[op.name];
        var g := match op
                 case Write(_, v) => f.(current := v)
                 case AddOrRemoveValidator(_, fn) => AddValidator(f, fn).0
                 case _ => Touch(f);
        Outcome(Running, table[op.name := g])
  }

  /** The flags after a list of operations, up to one that ends the program. */
  function Outcomes(w: World, depth: nat, table: FlagTable, ops: seq<UserOp>): Outcome
    decreases |ops|
  {
    if ops == [] then Outcome(Running, table)
    else
      var o := OpOutcome(w, depth, table, ops[0]);
      if o.stop != Running then o else Outcomes(w, depth, o.table, ops[1..])
  }

  /** All names of `sig`, with the same types. */
  predicate Extends(sig: Signature, more: Signature) {
    sig.Keys <= more.Keys && forall n | n in sig :: more[n] == sig[n]
  }

  /** A FlagSaver undoes whatever happens between its construction and its destruction: every flag has
      its old values, modified bit and validator again, in the same buffers. Flags that were registered
      meanwhile are left alone. */
  method FlagSaverScope(
      world: World, registry: FlagRegistry, ops: seq<UserOp>, depth: nat, ghost table: FlagTable)
    returns (stop: Stop, ghost after: FlagTable)
    requires registry.Valid() && registry.Shows(table) && WellFormed(table)
    requires TypedOps(Sig(table), ops)
    modifies registry, registry.Repr
    ensures registry.Valid() && Keeps(old(registry.flags), registry.flags)
    ensures Outcome(stop, after) == Outcomes(world, depth, table, ops)
    ensures stop != Running ==> registry.Shows(after)
    ensures stop == Running ==>
      && registry.Shows(Saver.PutBack(after, table)) && after.Keys == registry.flags.Keys
      && forall n | n in table :: n in after && Saver.PutBack(after, table)[n] == table[n]
  {
    hide FlagRegistry.Valid, FlagRegistry.Shows, WellFormed, Saver.FlagSaverImpl.Valid, TypedOp, Keeps, OpOutcome;
    stop, after := Running, table;
    var saver := new Saver.FlagSaverImpl(registry);
    SaverApart(registry);
    saver.SaveFromRegistry(table);
    KeepsSelf(registry.flags);
    for i := 0 to |ops|
      invariant registry.Valid() && registry.Shows(after) && saver.Valid()
      invariant Keeps(old(registry.flags), registry.flags)
      invariant saver.mainRegistry == registry && registry !in saver.Repr
      invariant saver.Repr !! registry.Repr && saver !in registry.Repr && saver.saved == table
      invariant fresh(registry.Repr - old(registry.Repr)) && registry !in registry.Repr
      invariant WellFormed(after) && Extends(Sig(table), Sig(after)) && TypedOps(Sig(after), ops[i..])
      invariant stop == Running && Outcomes(world, depth, table, ops) == Outcomes(world, depth, after, ops[i..])
    {
      assert ops[i..][0] == ops[i] && ops[i..][1..] == ops[i + 1..];
      ghost var before := registry.flags;
      stop, after := Perform(world, registry, ops[i], depth, after);
      KeepsTrans(old(registry.flags), before, registry.flags);
      if stop != Running {
        return;
      }
    }
    SameSigTypes(table, after);
    saver.RestoreToRegistry(after);
    registry.ShownKeys(Saver.PutBack(after, table));
  }

  /** Every flag object is still registered under its name. */
  ghost predicate Keeps(before: map<string, CommandLineFlag>, after: map<string, CommandLineFlag>) {
    before.Keys <= after.Keys && forall n | n in before :: after[n] == before[n]
  }

  lemma KeepsSelf(flags: map<string, CommandLineFlag>)
    ensures Keeps(flags, flags)
  {
  }

  lemma KeepsTrans(
      a: map<string, CommandLineFlag>, b: map<string, CommandLineFlag>, c: map<string, CommandLineFlag>)
    requires Keeps(a, b) && Keeps(b, c)
    ensures Keeps(a, c)
  {
  }

  lemma SaverApart(registry: FlagRegistry)
    requires registry.Valid()
    ensures registry !in registry.Repr
  {
  }

  lemma SameSigTypes(a: FlagTable, b: FlagTable)
    requires WellFormed(a) && WellFormed(b) && Extends(Sig(a), Sig(b))
    ensures Saver.SameTypes(a, b)
  {
    assert a.Keys == Sig(a).Keys && b.Keys == Sig(b).Keys;
    forall n | n in a ensures n in b && TypeOf(a[n].current) == TypeOf(b[n].current) {
      assert n in Sig(a);
      assert a[n].WellTyped() && b[n].WellTyped();
      assert Sig(a)[n] == Sig(b)[n];
    }
  }

  method Perform(
      world: World, registry: FlagRegistry, op: UserOp, depth: nat, ghost table: FlagTable)
    returns (stop: Stop, ghost after: FlagTable)
    requires registry.Valid() && registry.Shows(table) && WellFormed(table) && TypedOp(Sig(table), op)
    modifies registry, registry.Repr
    ensures registry.Valid() && registry.Shows(after)
    ensures Keeps(old(registry.flags), registry.flags)
    ensures fresh(registry.Repr - old(registry.Repr)) && registry !in registry.Repr
    ensures WellFormed(after) && Extends(Sig(table), Sig(after))
    ensures stop == Running ==> Sig(after) == NextSig(Sig(table), op)
    ensures Outcome(stop, after) == OpOutcome(world, depth, table, op)
  {
    hide FlagRegistry.Valid, FlagRegistry.Shows, WellFormed, AddValidator, Touch, OptionOutcome, Sig;
    stop := Running;
    SaverApart(registry);
    registry.ShownKeys(table);
    KeepsSelf(registry.flags);
    match op {
      case SetOption(name, value, mode) =>
        stop, after := SetCommandLineOptionWithMode(world, registry, name, value, mode, depth, table);
      case Write(name, v) =>
        SigAt(table, name);
        registry.FlagFacts(table, name);
        after := table[name := table[name].(current := v)];
        WriteKeeps(table, name, v);
        registry.WriteThrough(name, v, table);
      case AddOrRemoveValidator(name, fn) =>
        SigAt(table, name);
        registry.FlagFacts(table, name);
        registry.IndexFacts(name);
        after := table[name := AddValidator(table[name], fn).0];
        ValidatorKeeps(table, name, fn);
        var _ := registry.AddFlagValidator(registry.flags[name].current.buffer, fn, table);
      case LookAt(name) =>
        SigAt(table, name);
        after := table[name := Touch(table[name])];
        TouchKeeps(table, name);
        var _ := FlagInfo(registry, name, table);
      case Register(name, help, filename, v) =>
        stop, after := RegisterNew(registry, name, help, filename, v, table);
    }
  }

  lemma SigAt(table: FlagTable, name: string)
    ensures name in Sig(table) <==> name in table
    ensures name in table ==> Sig(table)[name] == TypeOf(table[name].defvalue)
  {
  }

  /** RegisterCommandLineFlag, with a default value; a second definition of a name ends the program. */
  method RegisterNew(
      registry: FlagRegistry, name: string, help: string, filename: string, v: Value, ghost table: FlagTable)
    returns (stop: Stop, ghost after: FlagTable)
    requires registry.Valid() && registry.Shows(table) && WellFormed(table)
    modifies registry
    ensures registry.Valid() && registry.Shows(after)
    ensures Keeps(old(registry.flags), registry.flags)
    ensures fresh(registry.Repr - old(registry.Repr)) && registry !in registry.Repr
    ensures WellFormed(after) && Extends(Sig(table), Sig(after))
    ensures stop == if name in table then Exited else Running
    ensures after == if name in table then table else table[name := FlagState(v, v, false, Text.None)]
    ensures stop == Running ==> Sig(after) == Sig(table)[name := TypeOf(v)]
  {
    hide FlagRegistry.Valid, FlagRegistry.Shows, WellFormed, Sig, CommandLineFlag.Valid;
    registry.ShownKeys(table);
    SaverApart(registry);
    var flag := NewFlag(name, help, filename, v);
    var ok := registry.RegisterFlag(flag, table);
    SaverApart(registry);
    if !ok {
      return Exited, table;
    }
    NewFlagKeeps(table, name, v);
    return Running, table[name := FlagState(v, v, false, Text.None)];
  }

  /** The storage and the object of a flag with a default value. */
  method NewFlag(name: string, help: string, filename: string, v: Value) returns (flag: CommandLineFlag)
    ensures fresh(flag.Objects()) && flag.Valid() && flag.name == name
    ensures flag.State() == FlagState(v, v, false, Text.None)
  {
    var buffer := new Buffer(v);
    var defbuffer := new Buffer(v);
    var current := new FlagValue(buffer, TypeOf(v));
    var defvalue := new FlagValue(defbuffer, TypeOf(v));
    flag := new CommandLineFlag(name, help, filename, current, defvalue);
  }

  lemma NewFlagKeeps(table: FlagTable, name: string, v: Value)
    requires WellFormed(table) && name !in table
    ensures var after := table[name := FlagState(v, v, false, Text.None)];
            WellFormed(after) && Sig(after) == Sig(table)[name := TypeOf(v)] && Extends(Sig(table), Sig(after))
  {
  }

  lemma WriteKeeps(table: FlagTable, n: string, v: Value)
    requires WellFormed(table) && n in table && TypeOf(v) == TypeOf(table[n].defvalue)
    ensures var after := table[n := table[n].(current := v)];
            WellFormed(after) && Sig(after) == Sig(table)
  {
    ParseProofs.UpdateKeepsTable(table, n, table[n].(current := v));
  }

  lemma ValidatorKeeps(table: FlagTable, n: string, fn: Text.Option<FnPtr>)
    requires WellFormed(table) && n in table
    ensures var after := table[n := AddValidator(table[n], fn).0];
            WellFormed(after) && Sig(after) == Sig(table)
  {
    assert table[n].WellTyped();
    ParseProofs.UpdateKeepsTable(table, n, AddValidator(table[n], fn).0);
  }

  lemma TouchKeeps(table: FlagTable, n: string)
    requires WellFormed(table) && n in table
    ensures var after := table[n := Touch(table[n])];
            WellFormed(after) && Sig(after) == Sig(table)
  {
    assert table[n].WellTyped();
    ParseProofs.UpdateKeepsTable(table, n, Touch(table[n]));
  }

  // ----- ReadFlagsFromString -----

  /** --undefok holds a well-formed list; otherwise ReportErrors ends the program. */
  predicate GoodUndefok(flags: FlagTable) {
    "undefok" in flags && FlagList(Contents(flags["undefok"])).Some?
  }

  /** No error is left that --undefok or reparsing does not excuse. */
  predicate ReadsClean(r: PState, reparse: bool) {
    GoodUndefok(r.flags) &&
    !ErrorReports.AnyError(
      ErrorReports.ClearAll(r.errors, r.undefined, FlagList(Contents(r.flags["undefok"])).value, reparse))
  }

  /** ReadFlagsFromString, without help flags. It is all or nothing. When errors are fatal they end the program. */
  method ReadFlagsFromString(
      world: World, registry: FlagRegistry, contents: string, errorsAreFatal: bool, reparse: bool,
      depth: nat, ghost table: FlagTable)
    returns (stop: Stop, ok: bool)
    requires registry.Valid() && registry.Shows(table) && WellFormed(table)
    modifies registry.Repr
    ensures registry.Valid() && unchanged(registry)
    ensures var r := TextRun(world, depth, contents, table);
            var clean := ReadsClean(r, reparse);
            && (stop == Running <==> r.stop == Running && GoodUndefok(r.flags) && (errorsAreFatal ==> clean))
            && (r.stop != Running ==> stop == r.stop)
            && (ok <==> stop == Running && clean)
            && registry.Shows(if stop == Running && !ok then table else r.flags)
            && (ok ==> ErrorReports.AllAccepted(world, r.trace, table))
  {
    hide FlagRegistry.Valid, FlagRegistry.Shows, WellFormed, Saver.FlagSaverImpl.Valid, RunText, ParseProofs.SoundErrors,
      ErrorReports.ClearAll, ErrorReports.AllAccepted, Contents, FlagList, ParseProofs.Replays, Apply;
    ok := false;
    var saver := new Saver.FlagSaverImpl(registry);
    SaverApart(registry);
    saver.SaveFromRegistry(table);
    var parser := new Parser.CommandLineFlagParser(world, registry, table);
    ghost var st := parser.st;
    parser.ProcessOptionsFromStringLocked(contents, SetFlagsValue, depth);
    stop := parser.stop;
    if stop != Running {
      return;
    }
    ghost var r := parser.st;
    TextFacts(world, depth, contents, st);
    var found := parser.ReportErrors(reparse);
    stop := parser.stop;
    if stop != Running {
      return;
    }
    if found {
      if errorsAreFatal {
        stop := Exited;
        return;
      }
      SameSigTypes(table, r.flags);
      saver.RestoreToRegistry(r.flags);
      assert Saver.PutBack(r.flags, table) == table by { assert r.flags.Keys == Sig(r.flags).Keys; }
      return;
    }
    assert r.trace[|st.trace|..] == r.trace;
    ErrorReports.NoErrorAllAccepted(world, st, r, FlagList(Contents(r.flags["undefok"])).value, reparse);
    ok := true;
  }

  /** The state that ReadFlagsFromString decides on. */
  function TextRun(w: World, depth: nat, contents: string, table: FlagTable): PState {
    RunText(w, depth, SetFlagsValue, contents, PState(table, map[], {}, [], Running))
  }

  /** ReadFlagsFromString on the text of CommandlineFlagsIntoString: it returns, whether errors are fatal
      or not, with true, and every flag has the value it was printed with. */
  lemma ReadBack(
      w: World, depth: nat, ps: seq<RoundTrip.Printed>, printed: FlagTable, reparse: bool, table: FlagTable)
    requires RoundTrip.Prints(ps, printed) && RoundTrip.AllPrintable(ps)
    requires WellFormed(table) && RoundTrip.Restorable(w, printed, table) && GoodUndefok(printed)
    ensures var r := TextRun(w, depth, RoundTrip.PrintFlags(ps), table);
            && r.stop == Running && ReadsClean(r, reparse)
            && r.flags.Keys == printed.Keys
            && forall n | n in printed ::
                 r.flags[n] == table[n].(current := printed[n].current, modified := true)
  {
    hide RunText, WellFormed, RoundTrip.Prints, RoundTrip.AllPrintable, RoundTrip.Restorable, FlagList;
    RoundTrip.RestorableFlags(w, printed, table);
    RoundTrip.PrintedFlagsRestored(w, depth, ps, printed, PState(table, map[], {}, [], Running));
  }

  lemma TextFacts(w: World, depth: nat, contents: string, st: PState)
    requires WellFormed(st.flags) && st.errors == map[] && st.undefined == {}
    ensures var r := RunText(w, depth, SetFlagsValue, contents, st);
            && ParseProofs.Replays(w, SetFlagsValue, st, r) && ParseProofs.SoundErrors(r)
            && r.flags.Keys == st.flags.Keys && Sig(r.flags) == Sig(st.flags)
            && "undefok" in r.flags
  {
    hide RunAssigns, Flagfile.TextAssigns, ParseProofs.Replays;
    var assigns := Flagfile.TextAssigns(ProgramMatcher(w), Sig(st.flags), contents);
    ParseProofs.RunAssignsReplays(w, depth, SetFlagsValue, assigns, st);
    ParseProofs.ParseKeepsSoundErrors(w, depth, SetFlagsValue, assigns, st);
    ParseProofs.ParseKeepsFlags(w, depth, SetFlagsValue, assigns, st);
  }

  // ----- ParseCommandLineFlags -----

  /** ParseCommandLineFlags without help flags. It returns exactly when stage 1 runs to its end and no
      unexcused error is left; any such error, or a malformed --undefok, ends the program. */
  method ParseCommandLineFlags(
      world: World, registry: FlagRegistry, argv: array<string>, removeFlags: bool, reparse: bool,
      depth: nat, ghost table: FlagTable)
    returns (stop: Stop, firstNonopt: nat, start: nat)
    requires registry.Valid() && registry.Shows(table) && WellFormed(table)
    requires argv.Length > 0 && argv !in registry.Repr
    modifies registry.Repr, argv
    ensures registry.Valid() && unchanged(registry)
    ensures var r := CommandLine.RunCommandLine(world, depth, old(argv[1..]), PState(table, map[], {}, [], Running));
            && registry.Shows(r.flags) && (r.stop != Running ==> stop == r.stop)
            && (stop == Running <==>
                  && r.stop == Running
                  && "undefok" in r.flags && FlagList(Contents(r.flags["undefok"])).Some?
                  && !ErrorReports.AnyError(
                        CommandLine.FinalErrors(world, r, FlagList(Contents(r.flags["undefok"])).value, reparse)))
    ensures stop == Running ==>
      var s := Argv.ScanArgs(Sig(table), old(argv[1..]));
      if removeFlags then
        start == |s.scanned| < argv.Length && firstNonopt == 1 &&
        argv[start..] == [old(argv[0])] + s.rest + s.moved
      else
        start == 0 && firstNonopt == 1 + |s.scanned| &&
        argv[..] == [old(argv[0])] + s.scanned + s.rest + s.moved
  {
    hide FlagRegistry.Valid, FlagRegistry.Shows, WellFormed, Argv.RunArgs, RunList, CommandLine.FollowPreset, Sig,
      Argv.ScanArgs, Argv.Layout,
      Contents, FlagList, ErrorReports.AnyError, ErrorReports.Validated, ErrorReports.ClearAll, Apply;
    firstNonopt, start := 0, 0;
    SaverApart(registry);
    var parser := new Parser.CommandLineFlagParser(world, registry, table);
    ghost var args, st0 := argv[1..], parser.st;
    FollowPresetFlags(parser, depth);
    if parser.stop != Running {
      return parser.stop, 0, 0;
    }
    firstNonopt, start := parser.ParseNewCommandLineFlags(argv, removeFlags, depth);
    if parser.stop != Running {
      return parser.stop, firstNonopt, start;
    }
    ghost var r := parser.st;
    parser.UndefokFacts();
    parser.ValidateFlags(false);
    var found := parser.ReportErrors(reparse);
    stop := parser.stop;
    if stop == Running && found {
      stop := Exited;
    }
  }

  /** The recursive flags that were set before the call. */
  method FollowPresetFlags(parser: Parser.CommandLineFlagParser, depth: nat)
    requires parser.Valid() && parser.stop == Running
    modifies parser.Frame()
    ensures parser.Valid() && unchanged(parser.registry) && Sig(parser.st.flags) == Sig(old(parser.st).flags)
    ensures parser.st == CommandLine.FollowPresets(parser.world, depth, old(parser.st))
  {
    hide FlagRegistry.Valid, FlagRegistry.Shows, WellFormed, RunList, Sig, Contents;
    parser.Facts();
    parser.PresetFacts();
    parser.ProcessFlagfileLocked(parser.FlagText(parser.registry.flags[FLAGFILE]), SetFlagsValue, depth);
    if parser.stop == Running {
      parser.Facts();
      parser.PresetFacts();
      parser.ProcessFromenvLocked(parser.FlagText(parser.registry.flags[FROMENV]), SetFlagsValue, true, depth);
    }
    if parser.stop == Running {
      parser.Facts();
      parser.PresetFacts();
      parser.ProcessFromenvLocked(parser.FlagText(parser.registry.flags[TRYFROMENV]), SetFlagsValue, false, depth);
    }
  }
}
