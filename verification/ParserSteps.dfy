/** The equations between one turn of a CommandLineFlagParser loop and the functions of module
    Engine that the loops are proved against. */
module ParserSteps {
  import Text
  import opened Flags
  import Names
  import opened Flagfile
  import opened Engine

  /** One option: its set, then its references. */
  lemma SingleOption(w: World, depth: nat, mode: Mode, a: Assign, st: PState)
    requires st.stop == Running && a.name in st.flags
    ensures var r := SetFlag(w.validators, a.name, st.flags[a.name], a.text, mode);
            var st1 := Apply(w, mode, Set(a.name, a.text), st);
            RunAssigns(w, depth, mode, [a], st) ==
              if r.error.Some? || !IsRecursive(a.name) then st1
              else RunList(w, depth, mode, a.name, Contents(r.flag), st1)
  {
    assert [a][1..] == [];
  }

  lemma ApplySet(w: World, mode: Mode, name: string, text: string, st: PState)
    requires name in st.flags
    ensures var r := SetFlag(w.validators, name, st.flags[name], text, mode);
            var next := Apply(w, mode, Set(name, text), st);
            && next.flags == st.flags[name := r.flag] && next.flags[name] == r.flag
            && next.errors == (if r.error.Some? then st.errors[name := r.error] else st.errors)
            && next.undefined == st.undefined && next.stop == st.stop
  {
  }

  lemma StoppedRefs(w: World, depth: nat, mode: Mode, refs: seq<Ref>)
    ensures forall st: PState | st.stop != Running || refs == [] ::
      RunRefs(w, depth, mode, refs, st) == st
  {
  }

  lemma StoppedAssigns(w: World, depth: nat, mode: Mode, assigns: seq<Assign>)
    ensures forall st: PState | st.stop != Running || assigns == [] ::
      RunAssigns(w, depth, mode, assigns, st) == st
  {
  }

  /** The references of a list that parses. */
  function ListRefs(name: string, items: seq<string>): seq<Ref> {
    seq(|items|, i requires 0 <= i < |items| =>
      if name == FLAGFILE then FileRef(items[i]) else EnvRef(items[i], name == FROMENV))
  }

  lemma ListStart(w: World, depth: nat, mode: Mode, name: string, text: string, st: PState)
    requires IsRecursive(name)
    ensures text == "" ==> RunList(w, depth, mode, name, text, st) == st
    ensures Names.FlagList(text).None? ==>
      RunList(w, depth, mode, name, text, st) == Apply(w, mode, Halt(Exited), st)
    ensures Names.FlagList(text).Some? ==>
      RunList(w, depth, mode, name, text, st) ==
      RunRefs(w, depth, mode, ListRefs(name, Names.FlagList(text).value), st)
  {
    if Names.FlagList(text).Some? {
      assert RefsOf(name, text).value == ListRefs(name, Names.FlagList(text).value);
    }
  }

  lemma RefStep(w: World, depth: nat, mode: Mode, name: string, items: seq<string>, i: nat, st: PState)
    requires i < |items| && st.stop == Running
    ensures var refs := ListRefs(name, items);
            RunRefs(w, depth, mode, refs[i..], st) ==
            RunRefs(w, depth, mode, refs[i + 1..], Follow(w, depth, mode, refs[i], st))
  {
    var refs := ListRefs(name, items);
    assert refs[i..][0] == refs[i] && refs[i..][1..] == refs[i + 1..];
  }

  lemma FollowFile(w: World, depth: nat, mode: Mode, file: string, st: PState)
    ensures Follow(w, depth, mode, FileRef(file), st) ==
      if file !in w.files then Apply(w, mode, Halt(Exited), st)
      else if depth == 0 then Apply(w, mode, Halt(Overflowed), st)
      else RunText(w, depth - 1, mode, w.files[file], st)
  {
  }

  lemma FollowEnv(w: World, depth: nat, mode: Mode, flagname: string, fatal: bool, st: PState)
    ensures Follow(w, depth, mode, EnvRef(flagname, fatal), st) ==
      var flag := Names.FindFlag(Sig(st.flags), flagname);
      var envname := "FLAGS_" + flagname;
      if flag.None? then Apply(w, mode, Unknown(flagname, UnknownInEnvList), st)
      else if envname !in w.environ then
        if fatal then Apply(w, mode, Fail(flagname, NotInEnvironment(envname)), st) else st
      else
        var v := w.environ[envname];
        if v == FROMENV || v == TRYFROMENV then Apply(w, mode, Fail(flagname, EnvRecursion(v)), st)
        else if depth == 0 then Apply(w, mode, Halt(Overflowed), st)
        else RunAssigns(w, depth - 1, mode, [Assign(flag.value, v)], st)
  {
  }

  /** The assignments still to come when the reading loop stands at `cursor` in section `s`. */
  function Remaining(m: Matcher, sig: Names.Signature, cursor: Text.Option<string>, s: Section): seq<Assign> {
    match cursor case None => [] case Some(text) => ReadLines(m, sig, Lines(text), s)
  }

  lemma TextStart(w: World, depth: nat, mode: Mode, text: string, st: PState)
    ensures RunText(w, depth, mode, text, st) ==
      RunAssigns(w, depth, mode,
        Remaining(ProgramMatcher(w), Sig(st.flags), Text.Some(Text.CStr(text)), START), st)
  {
  }

  lemma TextEnd(w: World, depth: nat, mode: Mode, m: Matcher, sig: Names.Signature, s: Section)
    ensures forall st: PState :: RunAssigns(w, depth, mode, Remaining(m, sig, Text.None, s), st) == st
  {
  }

  /** One turn of the reading loop. */
  lemma TextStep(w: World, depth: nat, mode: Mode, m: Matcher, sig: Names.Signature, text: string, s: Section, st: PState)
    ensures var cut := NextLine(text);
            RunAssigns(w, depth, mode, Remaining(m, sig, Text.Some(text), s), st) ==
            RunAssigns(w, depth, mode, Remaining(m, sig, cut.rest, NextSection(m, s, cut.line)),
              RunAssigns(w, depth, mode, LineEffect(sig, s, cut.line), st))
  {
    var cut := NextLine(text);
    var next := NextSection(m, s, cut.line);
    ReadCut(m, sig, text, s);
    RunAssignsConcat(w, depth, mode, LineEffect(sig, s, cut.line), Remaining(m, sig, cut.rest, next), st);
  }

  lemma ReadCut(m: Matcher, sig: Names.Signature, text: string, s: Section)
    ensures var cut := NextLine(text);
            Remaining(m, sig, Text.Some(text), s) ==
              LineEffect(sig, s, cut.line) + Remaining(m, sig, cut.rest, NextSection(m, s, cut.line))
  {
    var cut := NextLine(text);
    var later := match cut.rest case None => [] case Some(rest) => Lines(rest);
    assert Lines(text) == [cut.line] + later;
    assert Lines(text)[0] == cut.line && Lines(text)[1..] == later;
    assert Remaining(m, sig, cut.rest, NextSection(m, s, cut.line))
        == ReadLines(m, sig, later, NextSection(m, s, cut.line));
  }
}
