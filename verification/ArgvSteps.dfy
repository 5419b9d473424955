/** The equations between one turn of the argv loop and module Argv. */
module ArgvSteps {
  import opened Text
  import Flags
  import Names
  import Flagfile
  import opened Engine
  import opened Argv

  /** What the argument `arg` does, given the unscanned argument after it, if any. */
  function ArgEvent(kind: Kind, arg: string, next: Option<string>): Option<Event> {
    match kind
    case ProgramArgument => None
    case Terminator => None
    case NoFlag(key, e) => Some(Record(Unknown(key, e)))
    case Complete(a) => Some(Do(a))
    case WantsValue(key, flag) =>
      match next
      case None => Some(Record(Fail(key, Flags.MissingArgument(arg))))
      case Some(v) => Some(Do(Flagfile.Assign(flag, v)))
  }

  /** How many arguments a flag uses up. */
  function Used(kind: Kind, n: nat): nat {
    if kind.WantsValue? && n > 1 then 2 else 1
  }

  function First(args: seq<string>): Option<string> {
    if args == [] then None else Some(args[0])
  }

  /** `s` is what the scan as a whole comes to, when `done` and `moved` are behind and `todo` is
      still to be scanned. */
  ghost predicate Partial(sig: Names.Signature, s: Scan, done: seq<string>, todo: seq<string>, moved: seq<string>) {
    var t := ScanArgs(sig, todo);
    s.scanned == done + t.scanned && s.rest == t.rest && s.moved == moved + t.moved
  }

  /** The state the whole command line comes to, when `todo` is still to be scanned. */
  ghost predicate Ahead(w: World, depth: nat, sig: Names.Signature, todo: seq<string>, st: PState, end: PState) {
    RunEvents(w, depth, ScanArgs(sig, todo).events, st) == end
  }

  lemma PartialMove(sig: Names.Signature, s: Scan, done: seq<string>, todo: seq<string>, moved: seq<string>)
    requires todo != [] && KindOf(sig, todo[0]).ProgramArgument? && Partial(sig, s, done, todo, moved)
    ensures Partial(sig, s, done, todo[1..], moved + [todo[0]])
    ensures ScanArgs(sig, todo[1..]).events == ScanArgs(sig, todo).events
  {
    hide KindOf;
    var t := ScanArgs(sig, todo[1..]);
    assert moved + ([todo[0]] + t.moved) == moved + [todo[0]] + t.moved;
  }

  lemma PartialEnd(sig: Names.Signature, s: Scan, done: seq<string>, todo: seq<string>, moved: seq<string>)
    requires todo != [] && KindOf(sig, todo[0]).Terminator? && Partial(sig, s, done, todo, moved)
    ensures s.scanned == done + [todo[0]] && s.rest == todo[1..] && s.moved == moved
    ensures ScanArgs(sig, todo).events == []
  {
    hide KindOf;
  }

  lemma PartialNone(sig: Names.Signature, s: Scan, done: seq<string>, moved: seq<string>)
    requires Partial(sig, s, done, [], moved)
    ensures s.scanned == done && s.rest == [] && s.moved == moved
    ensures ScanArgs(sig, []).events == []
  {
  }

  predicate IsFlagKind(kind: Kind) {
    kind.NoFlag? || kind.Complete? || kind.WantsValue?
  }

  lemma PartialFlag(sig: Names.Signature, s: Scan, done: seq<string>, todo: seq<string>, moved: seq<string>)
    requires todo != [] && IsFlagKind(KindOf(sig, todo[0])) && Partial(sig, s, done, todo, moved)
    ensures var k := KindOf(sig, todo[0]);
            var n := Used(k, |todo|);
            && Partial(sig, s, done + todo[..n], todo[n..], moved)
            && ScanArgs(sig, todo).events ==
               [ArgEvent(k, todo[0], First(todo[1..])).value] + ScanArgs(sig, todo[n..]).events
  {
    hide KindOf;
    var k := KindOf(sig, todo[0]);
    var n := Used(k, |todo|);
    var t := ScanArgs(sig, todo[n..]);
    assert done + (todo[..n] + t.scanned) == done + todo[..n] + t.scanned;
    if k.WantsValue? && |todo| == 1 {
      assert todo[1..] == [] && t == Scan([], [], [], []);
    }
  }

  lemma AheadFlag(w: World, depth: nat, sig: Names.Signature, todo: seq<string>, st: PState, end: PState, e: Event, rest: seq<string>)
    requires Ahead(w, depth, sig, todo, st, end) && st.stop == Running
    requires ScanArgs(sig, todo).events == [e] + ScanArgs(sig, rest).events
    ensures Ahead(w, depth, sig, rest, RunEvent(w, depth, e, st), end)
    ensures RunEvent(w, depth, e, st).stop != Running ==> RunEvent(w, depth, e, st) == end
  {
    hide ScanArgs, RunEvent;
    assert ([e] + ScanArgs(sig, rest).events)[1..] == ScanArgs(sig, rest).events;
  }

  lemma AheadDone(w: World, depth: nat, sig: Names.Signature, todo: seq<string>, st: PState, end: PState)
    requires Ahead(w, depth, sig, todo, st, end) && ScanArgs(sig, todo).events == []
    ensures st == end
  {
  }

  lemma AheadSame(w: World, depth: nat, sig: Names.Signature, todo: seq<string>, rest: seq<string>, st: PState, end: PState)
    requires Ahead(w, depth, sig, todo, st, end)
    requires ScanArgs(sig, todo).events == ScanArgs(sig, rest).events
    ensures Ahead(w, depth, sig, rest, st, end)
  {
  }

  function WithMoved(all: seq<string>, i: nat): seq<string>
    requires i < |all|
  {
    all[..i] + all[i + 1..] + [all[i]]
  }

  /** memmove of everything behind position `i` one place down, and the argument to the end. */
  method MoveToEnd(argv: array<string>, i: nat)
    requires i < argv.Length
    modifies argv
    ensures argv[..] == WithMoved(old(argv[..]), i)
  {
    var arg := argv[i];
    forall k | i <= k < argv.Length - 1 {
      argv[k] := argv[k + 1];
    }
    argv[argv.Length - 1] := arg;
  }

  /** The order of argv while it is being scanned. */
  ghost predicate Arranged(all: seq<string>, program: string, done: seq<string>, todo: seq<string>, moved: seq<string>) {
    all == [program] + done + todo + moved
  }

  lemma ArrangedStart(all: seq<string>)
    requires all != []
    ensures Arranged(all, all[0], [], all[1..], [])
  {
  }

  lemma ArrangedMove(all: seq<string>, program: string, done: seq<string>, todo: seq<string>, moved: seq<string>)
    requires Arranged(all, program, done, todo, moved) && todo != []
    ensures var i := 1 + |done|;
            && i < |all| && all[i] == todo[0]
            && Arranged(WithMoved(all, i), program, done, todo[1..], moved + [todo[0]])
  {
    var i := 1 + |done|;
    assert all[..i] == [program] + done;
    assert all[i + 1..] == todo[1..] + moved;
  }

  lemma ArrangedTake(all: seq<string>, program: string, done: seq<string>, todo: seq<string>, moved: seq<string>, n: nat)
    requires Arranged(all, program, done, todo, moved) && n <= |todo|
    ensures Arranged(all, program, done + todo[..n], todo[n..], moved)
    ensures |all| == 1 + |done| + |todo| + |moved|
    ensures forall k | 0 <= k < |todo| :: all[1 + |done| + k] == todo[k]
  {
  }

  lemma PartialStart(sig: Names.Signature, args: seq<string>)
    ensures Partial(sig, ScanArgs(sig, args), [], args, [])
  {
  }

  lemma AheadStart(w: World, depth: nat, args: seq<string>, st: PState)
    ensures Ahead(w, depth, Sig(st.flags), args, st, RunArgs(w, depth, args, st))
  {
  }

  lemma NoEvent(kind: Kind, arg: string, next: Option<string>)
    ensures ArgEvent(kind, arg, next).None? <==> !IsFlagKind(kind)
  {
  }

  ghost function EventOf(kind: Kind, arg: string, next: Option<string>): (e: Event)
    requires IsFlagKind(kind)
    ensures ArgEvent(kind, arg, next) == Some(e)
  {
    ArgEvent(kind, arg, next).value
  }

  lemma LayoutOf(
      all: seq<string>, program: string, s: Scan, scanned: seq<string>, rest: seq<string>, moved: seq<string>)
    requires Arranged(all, program, scanned, rest, moved)
    requires s.scanned == scanned && s.rest == rest && s.moved == moved
    ensures all == Layout(program, s)
  {
  }

  /** The last part of ParseNewCommandLineFlags: with `removeFlags`, the program name is put in front
      of the first non-flag argument and argv is made to begin there. */
  method Finish(argv: array<string>, removeFlags: bool, boundary: nat, ghost program: string, ghost s: Scan)
    returns (start: nat, firstNonopt: nat)
    requires argv.Length > 0 && argv[..] == Layout(program, s) && boundary == 1 + |s.scanned|
    modifies argv
    ensures if removeFlags then
              start == |s.scanned| < argv.Length && firstNonopt == 1 && argv[start..] == [program] + s.rest + s.moved
            else
              start == 0 && firstNonopt == boundary && argv[..] == [program] + s.scanned + s.rest + s.moved
  {
    start, firstNonopt := 0, boundary;
    if removeFlags {
      assert argv[boundary..] == s.rest + s.moved by {
        assert argv[boundary..] == argv[..][boundary..];
      }
      assert argv[0] == argv[..][0] == program;
      ghost var tail := argv[boundary..];
      argv[boundary - 1] := argv[0];
      assert argv[boundary..] == tail;
      assert argv[boundary - 1..] == [program] + tail;
      start := boundary - 1;
      firstNonopt := 1;
      assert [program] + (s.rest + s.moved) == [program] + s.rest + s.moved;
    }
  }
}
