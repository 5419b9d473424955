/** ParseCommandLineFlags as a whole, on values: recursive flags set before main, then argv, then
    validation. */
module CommandLine {
  import opened Flags
  import opened Engine
  import opened ParseProofs
  import Argv
  import ArgvProofs
  import ErrorReports

  /** A recursive flag that was set before the parse is followed as if it came first in argv. */
  function FollowPreset(w: World, depth: nat, name: string, st: PState): PState {
    if st.stop != Running || name !in st.flags then st
    else RunList(w, depth, SetFlagsValue, name, Contents(st.flags[name]), st)
  }

  function FollowPresets(w: World, depth: nat, st: PState): PState {
    FollowPreset(w, depth, TRYFROMENV,
      FollowPreset(w, depth, FROMENV, FollowPreset(w, depth, FLAGFILE, st)))
  }

  /** The state after stage 1. */
  function RunCommandLine(w: World, depth: nat, args: seq<string>, st: PState): PState {
    var st1 := FollowPresets(w, depth, st);
    if st1.stop != Running then st1 else Argv.RunArgs(w, depth, args, st1)
  }

  lemma FollowPresetKeeps(w: World, depth: nat, name: string, st: PState, inv: PState -> bool)
    requires Stable(w, SetFlagsValue, inv) && inv(st) && IsRecursive(name)
    ensures inv(FollowPreset(w, depth, name, st))
  {
    hide RunRefs, Apply;
    if st.stop == Running && name in st.flags {
      match RefsOf(name, Contents(st.flags[name]))
      case None => assert Legal(Halt(Exited), st);
      case Some(refs) => RunRefsKeeps(w, depth, SetFlagsValue, refs, st, inv);
    }
  }

  lemma FollowPresetsKeeps(w: World, depth: nat, st: PState, inv: PState -> bool)
    requires Stable(w, SetFlagsValue, inv) && inv(st)
    ensures inv(FollowPresets(w, depth, st))
  {
    hide FollowPreset, Stable;
    var s1 := FollowPreset(w, depth, FLAGFILE, st);
    FollowPresetKeeps(w, depth, FLAGFILE, st, inv);
    FollowPresetKeeps(w, depth, FROMENV, s1, inv);
    FollowPresetKeeps(w, depth, TRYFROMENV, FollowPreset(w, depth, FROMENV, s1), inv);
  }

  lemma RunCommandLineKeeps(w: World, depth: nat, args: seq<string>, st: PState, inv: PState -> bool)
    requires WellFormed(st.flags) && Stable(w, SetFlagsValue, inv) && inv(st)
    ensures inv(RunCommandLine(w, depth, args, st))
  {
    hide FollowPresets, Argv.RunEvents, Stable, WellFormed, KeepsFlags;
    var st1 := FollowPresets(w, depth, st);
    FollowPresetsKeeps(w, depth, st, inv);
    ArgvProofs.KeepsFlagsStable(w, st);
    FollowPresetsKeeps(w, depth, st, s => KeepsFlags(SetFlagsValue, st, s));
    assert WellFormed(st1.flags) by { KeptWellFormed(SetFlagsValue, st, st1); }
    ArgvProofs.ScanLegal(Sig(st1.flags), args);
    ArgvProofs.RunEventsKeeps(w, depth, Argv.ScanArgs(Sig(st1.flags), args).events, st1, inv);
  }

  lemma RunCommandLineFacts(w: World, depth: nat, args: seq<string>, st: PState)
    requires WellFormed(st.flags)
    ensures var r := RunCommandLine(w, depth, args, st);
            && Replays(w, SetFlagsValue, st, r) && KeepsFlags(SetFlagsValue, st, r)
            && (SoundErrors(st) ==> SoundErrors(r))
  {
    hide RunCommandLine, WellFormed, KeepsFlags, SoundErrors, Replays, Stable;
    ReplaysStable(w, SetFlagsValue, st);
    ArgvProofs.ReplaysSelf(w, SetFlagsValue, st);
    RunCommandLineKeeps(w, depth, args, st, s => Replays(w, SetFlagsValue, st, s));
    ArgvProofs.KeepsFlagsStable(w, st);
    RunCommandLineKeeps(w, depth, args, st, s => KeepsFlags(SetFlagsValue, st, s));
    if SoundErrors(st) {
      SoundErrorsStable(w, SetFlagsValue);
      RunCommandLineKeeps(w, depth, args, st, (s: PState) => WellFormed(s.flags) && SoundErrors(s));
    }
  }

  /** The records that ReportErrors looks at. */
  function FinalErrors(w: World, st: PState, list: seq<string>, reparse: bool): ErrorReports.Errors {
    ErrorReports.ClearAll(ErrorReports.Validated(w, false, st.flags, st.errors), st.undefined, list, reparse)
  }

  /** When ParseCommandLineFlags returns without an unexcused error, then every assignment it carried out
      was accepted, and every flag that was unmodified at the start or was assigned since satisfies its
      validator. The others are as the program had left them. */
  lemma CleanCommandLine(
      w: World, depth: nat, args: seq<string>, table: FlagTable, list: seq<string>, reparse: bool)
    requires WellFormed(table)
    requires var r := RunCommandLine(w, depth, args, PState(table, map[], {}, [], Running));
             !ErrorReports.AnyError(FinalErrors(w, r, list, reparse))
    ensures var r := RunCommandLine(w, depth, args, PState(table, map[], {}, [], Running));
            && ErrorReports.AllAccepted(w, r.trace, table) && r.flags.Keys == table.Keys
            && forall n | n in table ::
                 if table[n].modified && !Sets(n, r.trace) then r.flags[n] == table[n]
                 else Validates(w.validators, n, r.flags[n].validator, r.flags[n].current)
  {
    hide RunCommandLine, WellFormed, Validates, ErrorReports.AllAccepted, Replays, ErrorReports.Validated;
    var st0 := PState(table, map[], {}, [], Running);
    var r := RunCommandLine(w, depth, args, st0);
    RunCommandLineFacts(w, depth, args, st0);
    assert r.trace[|st0.trace|..] == r.trace;
    ErrorReports.ValidatedKeepsErrors(w, r, list, reparse);
    ErrorReports.NoErrorAllAccepted(w, st0, r, list, reparse);
    forall n | n in table
      ensures if table[n].modified && !Sets(n, r.trace) then r.flags[n] == table[n]
              else Validates(w.validators, n, r.flags[n].validator, r.flags[n].current)
    {
      if !table[n].modified {
        ErrorReports.CleanParseValidates(w, st0, r, list, reparse, n);
      } else {
        ModifiedFlagAfter(w, st0, r, n);
        if Sets(n, r.trace) { ErrorReports.AcceptedValidates(w, n, table[n], r.trace, table); }
      }
    }
  }

  /** A flag that was modified at the start. */
  lemma ModifiedFlagAfter(w: World, st0: PState, r: PState, n: string)
    requires WellFormed(st0.flags) && Replays(w, SetFlagsValue, st0, r) && st0.trace == []
    requires n in st0.flags && st0.flags[n].modified
    ensures n in r.flags && r.flags[n].validator == st0.flags[n].validator
    ensures r.flags[n].current == LastAccepted(w, n, st0.flags[n], r.trace)
    ensures !Sets(n, r.trace) ==> r.flags[n] == st0.flags[n]
  {
    hide WellFormed, LastAccepted, SetsWell, Sets, ApplyAll, Accepts;
    assert r.trace[|st0.trace|..] == r.trace;
    ErrorReports.AllTyped(st0.flags);
    FlagAfter(w, n, r.trace, st0);
    if !Sets(n, r.trace) {
      if SetsWell(w, n, st0.flags[n], r.trace) { SetsWellSets(w, n, st0.flags[n], r.trace); }
      NoneAccepted(w, n, st0.flags[n], r.trace);
    }
  }

  lemma {:induction false} SetsWellSets(w: World, n: string, f: FlagState, ps: seq<Prim>)
    requires SetsWell(w, n, f, ps)
    ensures Sets(n, ps)
  {
    hide Accepts;
    var p := ps[|ps| - 1];
    if !(p.Set? && p.name == n) { SetsWellSets(w, n, f, ps[..|ps| - 1]); }
  }
}
