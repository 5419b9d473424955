/** CommandlineFlagsIntoString and ProcessOptionsFromStringLocked undo each other. */
module RoundTrip {
  import Text
  import opened Values
  import ValueProofs
  import Flags
  import Names
  import opened Flagfile
  import opened Engine
  import ParseProofs

  /** A name and the text of a current value. */
  datatype Printed = Printed(name: string, text: string)

  function FlagLine(p: Printed): string {
    "--" + (p.name + "=" + p.text)
  }

  /** TheseCommandlineFlagsIntoString */
  function PrintFlags(ps: seq<Printed>): string {
    if ps == [] then "" else FlagLine(ps[0]) + [Text.LF] + PrintFlags(ps[1..])
  }

  /** The line of each flag, wherever it stands. */
  lemma {:induction false} PrintedLine(before: seq<Printed>, name: string, text: string, after: seq<Printed>)
    ensures PrintFlags(before + [Printed(name, text)] + after) ==
            PrintFlags(before) + ("--" + name + "=" + text + "\n") + PrintFlags(after)
  {
    var all, line := before + [Printed(name, text)] + after, "--" + name + "=" + text + "\n";
    if before == [] {
      assert all[0] == Printed(name, text) && all[1..] == after;
      assert FlagLine(all[0]) + [Text.LF] == line;
    } else {
      assert all[0] == before[0] && all[1..] == before[1..] + [Printed(name, text)] + after;
      PrintedLine(before[1..], name, text, after);
      assert FlagLine(before[0]) + [Text.LF] + (PrintFlags(before[1..]) + line + PrintFlags(after))
          == FlagLine(before[0]) + [Text.LF] + PrintFlags(before[1..]) + line + PrintFlags(after);
    }
  }

  method TheseCommandlineFlagsIntoString(infos: seq<Printed>) returns (retval: string)
    ensures retval == PrintFlags(infos)
  {
    retval := "";
    for i := 0 to |infos|
      invariant retval + PrintFlags(infos[i..]) == PrintFlags(infos)
    {
      var p := infos[i];
      assert PrintFlags(infos[i..]) == FlagLine(p) + [Text.LF] + PrintFlags(infos[i + 1..]) by {
        assert infos[i..][0] == p && infos[i..][1..] == infos[i + 1..];
      }
      ghost var before := retval;
      retval := retval + "--";
      retval := retval + p.name;
      retval := retval + "=";
      retval := retval + p.text;
      retval := retval + [Text.LF];
      assert retval == before + (FlagLine(p) + [Text.LF]);
    }
    assert infos[|infos|..] == [];
  }

  // ----- Reading the text back -----

  predicate Printable(p: Printed) {
    && '=' !in p.name && (p.name == "" || p.name[0] != '-')
    && OneLine(p.name) && Text.NUL !in p.name && OneLine(p.text) && Text.NUL !in p.text
  }

  predicate AllPrintable(ps: seq<Printed>) {
    forall i | 0 <= i < |ps| :: Printable(ps[i])
  }

  function FlagLinesOf(ps: seq<Printed>): (ls: seq<string>)
    ensures |ls| == |ps|
    ensures forall i | 0 <= i < |ps| :: ls[i] == FlagLine(ps[i])
  {
    seq(|ps|, i requires 0 <= i < |ps| => FlagLine(ps[i]))
  }

  lemma {:induction false} PrintedLines(ps: seq<Printed>)
    requires AllPrintable(ps)
    ensures PrintFlags(ps) == MixedText(LfLines(FlagLinesOf(ps)), "")
    ensures Text.NUL !in PrintFlags(ps)
    ensures Visible(FlagLinesOf(ps)) == FlagLinesOf(ps)
  {
    if ps != [] {
      hide FlagLine, Printable, MixedText, Visible;
      PrintedLines(ps[1..]);
      assert Printable(ps[0]);
      FlagLineVisible(ps[0]);
      var ls := FlagLinesOf(ps);
      assert ls[1..] == FlagLinesOf(ps[1..]) && LfLines(ls)[1..] == LfLines(ls[1..]);
      LineFirst(ls);
    }
  }

  lemma FlagLineVisible(p: Printed)
    requires Printable(p)
    ensures Text.NUL !in FlagLine(p) && FlagLine(p) != "" && Text.SkipSpace(FlagLine(p)) == FlagLine(p)
  {
  }

  lemma LineFirst(ls: seq<string>)
    requires ls != [] && LfLines(ls)[1..] == LfLines(ls[1..])
    ensures MixedText(LfLines(ls), "") == ls[0] + [Text.LF] + MixedText(LfLines(ls[1..]), "")
    ensures ls[0] != "" && Text.SkipSpace(ls[0]) == ls[0] && Visible(ls[1..]) == ls[1..] ==> Visible(ls) == ls
  {
    assert ls == [ls[0]] + ls[1..];
  }

  function AssignsOf(ps: seq<Printed>): (r: seq<Assign>)
    ensures |r| == |ps|
    ensures forall i | 0 <= i < |ps| :: r[i] == Assign(ps[i].name, ps[i].text)
  {
    seq(|ps|, i requires 0 <= i < |ps| => Assign(ps[i].name, ps[i].text))
  }

  lemma FlagLineReads(sig: Names.Signature, p: Printed)
    requires Printable(p) && p.name in sig
    ensures IsFlagLine(FlagLine(p)) && LineAssign(sig, FlagLine(p)) == Text.Some(Assign(p.name, p.text))
  {
    var line := FlagLine(p);
    assert line[2..] == p.name + "=" + p.text;
    Names.SplitNameValue(sig, p.name, p.text);
    hide Names.SplitArgument;
  }

  lemma {:induction false} PrintedAssigns(m: Matcher, sig: Names.Signature, ps: seq<Printed>)
    requires AllPrintable(ps) && forall i | 0 <= i < |ps| :: ps[i].name in sig
    ensures ReadLines(m, sig, FlagLinesOf(ps) + [""], START) == AssignsOf(ps)
  {
    hide LineAssign, FlagLine, Printable;
    var ls := FlagLinesOf(ps);
    if ps == [] {
      assert (ls + [""])[1..] == [];
    } else {
      PrintedAssigns(m, sig, ps[1..]);
      assert (ls + [""])[1..] == FlagLinesOf(ps[1..]) + [""];
      assert Printable(ps[0]);
      FlagLineReads(sig, ps[0]);
      assert AssignsOf(ps) == [Assign(ps[0].name, ps[0].text)] + AssignsOf(ps[1..]);
      assert NextSection(m, START, ls[0]) == START;
    }
  }

  lemma PrintedTextAssigns(m: Matcher, sig: Names.Signature, ps: seq<Printed>)
    requires AllPrintable(ps) && forall i | 0 <= i < |ps| :: ps[i].name in sig
    ensures TextAssigns(m, sig, PrintFlags(ps)) == AssignsOf(ps)
  {
    hide ReadLines, PrintFlags, Printable, Lines;
    PrintedLines(ps);
    var ls := FlagLinesOf(ps);
    assert forall i | 0 <= i < |ls| :: OneLine(ls[i]) by { FlagLinesOneLine(ps); }
    LfLinesRead(ls);
    PrintedAssigns(m, sig, ps);
  }

  lemma FlagLinesOneLine(ps: seq<Printed>)
    requires AllPrintable(ps)
    ensures forall i | 0 <= i < |ps| :: OneLine(FlagLinesOf(ps)[i])
  {
    forall i | 0 <= i < |ps| ensures OneLine(FlagLinesOf(ps)[i]) {
      assert Printable(ps[i]);
    }
  }

  // ----- Applying the assignments -----

  /** `ps` prints exactly the flags of `flags`, each once, with its current value. */
  ghost predicate Prints(ps: seq<Printed>, flags: FlagTable) {
    && (forall i | 0 <= i < |ps| ::
          ps[i].name in flags && ps[i].text == ToString(flags[ps[i].name].current))
    && (forall i, j | 0 <= i < j < |ps| :: ps[i].name != ps[j].name)
    && (forall n | n in flags :: exists i :: 0 <= i < |ps| && ps[i].name == n)
  }

  /** The same flags of the same types; validators may have come and gone. */
  ghost predicate SameFlags(printed: FlagTable, now: FlagTable) {
    printed.Keys == now.Keys && forall n | n in printed :: TypeOf(printed[n].current) == TypeOf(now[n].current)
  }

  /** The validators of now would accept the printed values, and the recursive flags are printed as
      empty. */
  ghost predicate Restorable(w: World, printed: FlagTable, now: FlagTable) {
    && SameFlags(printed, now)
    && forall n | n in printed ::
         && Flags.Validates(w.validators, n, now[n].validator, printed[n].current)
         && (IsRecursive(n) ==> printed[n].current == StringValue(""))
  }

  /** The flags after the first `k` assignments. */
  ghost predicate Restored(ps: seq<Printed>, k: nat, printed: FlagTable, st0: PState, st: PState)
    requires k <= |ps| && SameFlags(printed, st0.flags)
  {
    && st.flags.Keys == printed.Keys && st.stop == Running
    && st.errors == st0.errors && st.undefined == st0.undefined
    && forall n | n in printed :: st.flags[n] ==
         if Done(ps, k, n)
         then st0.flags[n].(current := printed[n].current, modified := true)
         else st0.flags[n]
  }

  predicate Done(ps: seq<Printed>, k: nat, n: string)
    requires k <= |ps|
  {
    exists i | 0 <= i < k :: ps[i].name == n
  }

  lemma DoneStep(ps: seq<Printed>, k: nat)
    requires k < |ps|
    ensures forall n :: Done(ps, k + 1, n) <==> Done(ps, k, n) || n == ps[k].name
  {
    forall n | Done(ps, k, n) ensures Done(ps, k + 1, n) {
      var i :| 0 <= i < k && ps[i].name == n;
      assert 0 <= i < k + 1 && ps[i].name == n;
    }
    assert Done(ps, k + 1, ps[k].name);
  }

  lemma OneRestored(w: World, depth: nat, ps: seq<Printed>, k: nat, printed: FlagTable, st0: PState, st: PState)
    requires k < |ps| && Prints(ps, printed) && Restorable(w, printed, st0.flags)
    requires Restored(ps, k, printed, st0, st)
    ensures var a := Assign(ps[k].name, ps[k].text);
            && a.name in st.flags
            && StepRefs(w, Flags.SetFlagsValue, a, st) == []
            && Restored(ps, k + 1, printed, st0, SetStep(w, Flags.SetFlagsValue, a, st))
  {
    hide SetStep, StepRefs, ToString, IsRecursive, Flags.Validates, Done, ParseProofs.AcceptedValue, ParseProofs.Accepts;
    var n, text := ps[k].name, ps[k].text;
    DoneStep(ps, k);
    NotDone(ps, k, printed);
    var f := st.flags[n];
    assert f == st0.flags[n] && TypeOf(printed[n].current) == TypeOf(f.current);
    assert IsRecursive(n) ==> text == "" by { EmptyText(); }
    PrintedAccepted(w, n, f, printed[n].current);
    AcceptedStep(w, Assign(n, text), st);
  }

  lemma NotDone(ps: seq<Printed>, k: nat, printed: FlagTable)
    requires k < |ps| && Prints(ps, printed)
    ensures !Done(ps, k, ps[k].name)
  {
  }

  lemma EmptyText()
    ensures ToString(StringValue("")) == ""
  {
  }

  lemma PrintedAccepted(w: World, n: string, f: Flags.FlagState, v: Value)
    requires TypeOf(v) == TypeOf(f.current) && Flags.Validates(w.validators, n, f.validator, v)
    ensures ParseProofs.Accepts(w, n, f, ToString(v)) && ParseProofs.AcceptedValue(w, n, f, ToString(v)) == v
  {
    hide ParseValue, ToString, Flags.Validates;
    ValueProofs.ParsePrintedText(v);
  }

  /** An accepted assignment that leaves no references to follow. */
  lemma AcceptedStep(w: World, a: Assign, st: PState)
    requires a.name in st.flags && ParseProofs.Accepts(w, a.name, st.flags[a.name], a.text)
    requires IsRecursive(a.name) ==> a.text == "" && TypeOf(st.flags[a.name].current) == FvString
    ensures var f := st.flags[a.name];
            var v := ParseProofs.AcceptedValue(w, a.name, f, a.text);
            && StepRefs(w, Flags.SetFlagsValue, a, st) == []
            && SetStep(w, Flags.SetFlagsValue, a, st) == st.(
                 flags := st.flags[a.name := f.(current := v, modified := true)],
                 trace := st.trace + [Set(a.name, a.text)])
  {
    hide Flags.TryParse, Names.FlagList;
    ParseProofs.SetValue(w, a.name, st.flags[a.name], a.text);
    if IsRecursive(a.name) { ParseProofs.StringAccepted(w, a.name, st.flags[a.name], a.text); }
    EmptyList();
  }

  lemma EmptyList()
    ensures Names.FlagList("") == Text.Some([])
  {
  }

  lemma {:induction false} RestoreFrom(
      w: World, depth: nat, ps: seq<Printed>, k: nat, printed: FlagTable, st0: PState, st: PState)
    requires k <= |ps| && Prints(ps, printed) && Restorable(w, printed, st0.flags)
    requires Restored(ps, k, printed, st0, st)
    ensures Restored(ps, |ps|, printed, st0, RunAssigns(w, depth, Flags.SetFlagsValue, AssignsOf(ps)[k..], st))
    decreases |ps| - k
  {
    hide Restored, Prints, Restorable, SetStep, StepRefs;
    var rest := AssignsOf(ps)[k..];
    if k < |ps| {
      assert rest[0] == Assign(ps[k].name, ps[k].text) && rest[1..] == AssignsOf(ps)[k + 1..];
      OneRestored(w, depth, ps, k, printed, st0, st);
      assert st.stop == Running by { RestorableFlags(w, printed, st0.flags); RestoredRuns(ps, k, printed, st0, st); }
      RestoreFrom(w, depth, ps, k + 1, printed, st0, SetStep(w, Flags.SetFlagsValue, rest[0], st));
    }
  }

  lemma RestorableFlags(w: World, printed: FlagTable, now: FlagTable)
    requires Restorable(w, printed, now)
    ensures SameFlags(printed, now)
  {
  }

  lemma RestoredRuns(ps: seq<Printed>, k: nat, printed: FlagTable, st0: PState, st: PState)
    requires k <= |ps| && SameFlags(printed, st0.flags) && Restored(ps, k, printed, st0, st)
    ensures st.stop == Running
  {
  }

  /** Text printed from all flags, in any order, and read back later with SET_FLAGS_VALUE gives every
      flag the value it was printed with, marks it modified, changes no default value or validator
      and records no error, whatever values the flags have by printed. */
  lemma PrintedFlagsRestored(w: World, depth: nat, ps: seq<Printed>, printed: FlagTable, st: PState)
    requires Prints(ps, printed) && AllPrintable(ps) && WellFormed(st.flags) && st.stop == Running
    requires Restorable(w, printed, st.flags)
    ensures var r := RunText(w, depth, Flags.SetFlagsValue, PrintFlags(ps), st);
            && r.stop == Running && r.errors == st.errors && r.undefined == st.undefined
            && r.flags.Keys == printed.Keys
            && forall n | n in printed ::
                 r.flags[n] == st.flags[n].(current := printed[n].current, modified := true)
  {
    hide RunAssigns, TextAssigns, WellFormed;
    var sig := Sig(st.flags);
    PrintedTextAssigns(ProgramMatcher(w), sig, ps);
    assert Restored(ps, 0, printed, st, st);
    RestoreFrom(w, depth, ps, 0, printed, st, st);
    assert AssignsOf(ps)[0..] == AssignsOf(ps);
    forall n | n in printed ensures Done(ps, |ps|, n) {
      var i :| 0 <= i < |ps| && ps[i].name == n;
    }
  }
}
