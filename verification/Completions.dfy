/** The completion pipeline of gflags_completions.cc: which flags match a search token, which of them
    are notable, and which fit into the lines to be shown. A set of pointers into the vector of flags
    is a set of positions, iterated in increasing order. */
module Completions {
  import Text
  import Registry

  datatype Options = Options(
    nameSearch: bool,
    locationSearch: bool,
    descriptionSearch: bool,
    allMatching: bool)

  // ----- Matching -----

  predicate OccursAt(s: string, t: string, i: nat) {
    i + |t| <= |s| && s[i..i + |t|] == t
  }

  /** string::find(t, start) */
  function Find(s: string, t: string, start: nat): (r: Text.Option<nat>)
    ensures r.None? <==> forall i | i >= start :: !OccursAt(s, t, i)
    ensures r.Some? ==>
      r.value >= start && OccursAt(s, t, r.value) && forall i | start <= i < r.value :: !OccursAt(s, t, i)
    decreases |s| - start
  {
    if start + |t| > |s| then Text.None
    else if OccursAt(s, t, start) then Text.Some(start)
    else Find(s, t, start + 1)
  }

  ghost predicate Contains(s: string, t: string) {
    exists i: nat :: OccursAt(s, t, i)
  }

  /** DoesSingleFlagMatch */
  predicate DoesSingleFlagMatch(flag: Registry.CommandLineFlagInfo, options: Options, token: string)
    ensures DoesSingleFlagMatch(flag, options, token) <==>
      || token <= flag.name
      || (options.nameSearch && Contains(flag.name, token))
      || (options.locationSearch && Contains(flag.filename, token))
      || (options.descriptionSearch && Contains(flag.description, token))
  {
    assert OccursAt(flag.name, token, 0) <==> token <= flag.name;
    var pos := Find(flag.name, token, 0);
    || pos == Text.Some(0)
    || (options.nameSearch && pos.Some?)
    || (options.locationSearch && Find(flag.filename, token, 0).Some?)
    || (options.descriptionSearch && Find(flag.description, token, 0).Some?)
  }

  /** The inner loop of FindMatchingFlags: the greatest common prefix of two names. */
  method CommonPrefix(a: string, b: string) returns (p: string)
    ensures p <= a && p <= b
    ensures |p| == |a| || |p| == |b| || a[|p|] != b[|p|]
  {
    var pos := 0;
    while pos < |a| && pos < |b| && a[pos] == b[pos]
      invariant pos <= |a| && pos <= |b| && a[..pos] == b[..pos]
    {
      pos := pos + 1;
    }
    p := a[..pos];
  }

  lemma CommonPrefixIsGreatest(a: string, b: string, p: string, q: string)
    requires p <= a && p <= b && (|p| == |a| || |p| == |b| || a[|p|] != b[|p|])
    requires q <= a && q <= b
    ensures q <= p
  {
    assert forall k | 0 <= k < |q| :: a[k] == q[k] == b[k];
  }

  ghost predicate IsCommonPrefix(p: string, all: seq<Registry.CommandLineFlagInfo>, matches: set<nat>) {
    forall i | i in matches && i < |all| :: p <= all[i].name
  }

  /** FindMatchingFlags: the matching flags and the greatest common prefix of their names. The names
      found by a search for prefixes alone all continue the token. */
  method FindMatchingFlags(all: seq<Registry.CommandLineFlagInfo>, options: Options, token: string)
    returns (matches: set<nat>, prefix: string)
    ensures forall i: nat :: i in matches <==> i < |all| && DoesSingleFlagMatch(all[i], options, token)
    ensures IsCommonPrefix(prefix, all, matches)
    ensures matches != {} ==> forall p: string | IsCommonPrefix(p, all, matches) :: p <= prefix
    ensures matches == {} ==> prefix == ""
    ensures matches != {} && !options.nameSearch && !options.locationSearch && !options.descriptionSearch
      ==> token <= prefix
  {
    matches, prefix := {}, "";
    for n := 0 to |all|
      invariant forall i: nat :: i in matches <==> i < n && DoesSingleFlagMatch(all[i], options, token)
      invariant IsCommonPrefix(prefix, all, matches)
      invariant matches != {} ==> forall p: string | IsCommonPrefix(p, all, matches) :: p <= prefix
      invariant matches == {} ==> prefix == ""
    {
      if DoesSingleFlagMatch(all[n], options, token) {
        ghost var before, shorter := matches, prefix;
        if matches == {} {
          prefix := all[n].name;
        } else if prefix == "" || all[n].name == "" {
          prefix := "";
        } else {
          prefix := CommonPrefix(prefix, all[n].name);
        }
        matches := matches + {n};
        forall p: string | IsCommonPrefix(p, all, matches) ensures p <= prefix {
          assert n in matches;
          assert IsCommonPrefix(p, all, before);
          if before != {} { CommonPrefixIsGreatest(shorter, all[n].name, prefix, p); }
        }
      }
    }
    if matches != {} && !options.nameSearch && !options.locationSearch && !options.descriptionSearch {
      assert IsCommonPrefix(token, all, matches);
    }
  }

  // ----- Categories -----

  datatype Category = PerfectMatch | ModuleFlag | PackageFlag | SubpackageFlag | Unremarkable

  const PATH_SEPARATOR: string := "/"

  /** The order of precedence in which CategorizeAllMatchingFlags places one flag. */
  function CategoryOf(flag: Registry.CommandLineFlagInfo, token: string, mod: string, packageDir: string): Category {
    if flag.name == token then PerfectMatch
    else if mod != "" && flag.filename == mod then ModuleFlag
    else if packageDir == "" then Unremarkable
    else
      match Find(flag.filename, packageDir, 0)
      case None => Unremarkable
      case Some(pos) =>
        if Find(flag.filename, PATH_SEPARATOR, pos + |packageDir| + 1).None? then PackageFlag
        else SubpackageFlag
  }

  lemma InPackage(flag: Registry.CommandLineFlagInfo, token: string, mod: string, packageDir: string, base: string)
    requires packageDir != "" && flag.filename == packageDir + "/" + base
    requires flag.name != token && (mod == "" || flag.filename != mod)
    ensures CategoryOf(flag, token, mod, packageDir) == if '/' in base then SubpackageFlag else PackageFlag
  {
    var file, after := flag.filename, |packageDir| + 1;
    assert OccursAt(file, packageDir, 0);
    assert file[after..] == base;
    if '/' in base {
      var k: nat :| k < |base| && base[k] == '/';
      SeparatorAt(file, after, k);
    } else {
      forall i | i >= after ensures !OccursAt(file, PATH_SEPARATOR, i) {
        SeparatorAt(file, after, i - after);
      }
    }
  }

  lemma SeparatorAt(file: string, after: nat, i: nat)
    requires after <= |file|
    ensures OccursAt(file, PATH_SEPARATOR, after + i) <==> i < |file[after..]| && file[after..][i] == '/'
  {
    if after + i < |file| {
      assert file[after + i..after + i + 1] == [file[after + i]];
    }
  }

  /** Which flags take precedence, and which are not notable at all. */
  lemma OtherCategories(flag: Registry.CommandLineFlagInfo, token: string, mod: string, packageDir: string)
    ensures CategoryOf(flag, token, mod, packageDir) == PerfectMatch <==> flag.name == token
    ensures CategoryOf(flag, token, mod, packageDir) == ModuleFlag <==>
      flag.name != token && mod != "" && flag.filename == mod
    ensures CategoryOf(flag, token, mod, packageDir) == Unremarkable <==>
      && flag.name != token && (mod == "" || flag.filename != mod)
      && (packageDir == "" || !Contains(flag.filename, packageDir))
  {
  }

  datatype NotableFlags = NotableFlags(
    perfectMatch: set<nat>,
    moduleFlags: set<nat>,
    packageFlags: set<nat>,
    mostCommon: set<nat>,
    subpackage: set<nat>)
  {
    predicate Disjoint() {
      && perfectMatch !! moduleFlags !! packageFlags !! mostCommon !! subpackage
    }

    function All(): set<nat> {
      perfectMatch + moduleFlags + packageFlags + mostCommon + subpackage
    }
  }

  ghost predicate IsCategory(
    flags: set<nat>, c: Category, matches: set<nat>,
    all: seq<Registry.CommandLineFlagInfo>, token: string, mod: string, packageDir: string)
  {
    forall i: nat :: i in flags <==>
      i in matches && i < |all| && CategoryOf(all[i], token, mod, packageDir) == c
  }

  /** CategorizeAllMatchingFlags: every match is in the set of its category, and in no other. The most
      common flags are never filled. */
  method CategorizeAllMatchingFlags(
      all: seq<Registry.CommandLineFlagInfo>, matches: set<nat>, token: string, mod: string, packageDir: string)
    returns (notable: NotableFlags)
    ensures IsCategory(notable.perfectMatch, PerfectMatch, matches, all, token, mod, packageDir)
    ensures IsCategory(notable.moduleFlags, ModuleFlag, matches, all, token, mod, packageDir)
    ensures IsCategory(notable.packageFlags, PackageFlag, matches, all, token, mod, packageDir)
    ensures IsCategory(notable.subpackage, SubpackageFlag, matches, all, token, mod, packageDir)
    ensures notable.mostCommon == {}
    ensures notable.Disjoint() && notable.All() <= matches
  {
    hide CategoryOf;
    notable := NotableFlags({}, {}, {}, {}, {});
    ghost var seen: set<nat> := {};
    for n := 0 to |all|
      invariant forall i: nat :: i in seen <==> i in matches && i < n
      invariant IsCategory(notable.perfectMatch, PerfectMatch, seen, all, token, mod, packageDir)
      invariant IsCategory(notable.moduleFlags, ModuleFlag, seen, all, token, mod, packageDir)
      invariant IsCategory(notable.packageFlags, PackageFlag, seen, all, token, mod, packageDir)
      invariant IsCategory(notable.subpackage, SubpackageFlag, seen, all, token, mod, packageDir)
      invariant notable.mostCommon == {}
    {
      if n in matches {
        seen := seen + {n};
        match CategoryOf(all[n], token, mod, packageDir)
        case PerfectMatch => notable := notable.(perfectMatch := notable.perfectMatch + {n});
        case ModuleFlag => notable := notable.(moduleFlags := notable.moduleFlags + {n});
        case PackageFlag => notable := notable.(packageFlags := notable.packageFlags + {n});
        case SubpackageFlag => notable := notable.(subpackage := notable.subpackage + {n});
        case Unremarkable =>
      }
    }
  }

  /** RetrieveUnusedFlags. `bound` exceeds every position. */
  method RetrieveUnusedFlags(matches: set<nat>, notable: NotableFlags, bound: nat) returns (unused: set<nat>)
    requires forall i | i in matches :: i < bound
    ensures unused == matches - notable.All()
  {
    unused := {};
    for n := 0 to bound
      invariant unused == set i | i in matches - notable.All() && i < n
    {
      if n in matches {
        if !(n in notable.perfectMatch || n in notable.moduleFlags || n in notable.packageFlags ||
             n in notable.mostCommon || n in notable.subpackage) {
          unused := unused + {n};
        }
      }
    }
  }

  // ----- Groups -----

  datatype Group = Group(header: string, footer: string, flags: set<nat>)
  {
    function SizeInLines(): nat {
      |flags| + 1 + (if header != "" then 1 else 0) + (if footer != "" then 1 else 0)
    }
  }

  function TotalSize(groups: seq<Group>): nat {
    if groups == [] then 0
    else TotalSize(groups[..|groups| - 1]) + groups[|groups| - 1].SizeInLines()
  }

  /** The precedence of a match: the lower, the earlier it is shown. */
  function Rank(notable: NotableFlags, i: nat): (r: nat)
    ensures r <= 5
  {
    if i in notable.perfectMatch then 0
    else if i in notable.moduleFlags then 1
    else if i in notable.packageFlags then 2
    else if i in notable.mostCommon then 3
    else if i in notable.subpackage then 4
    else 5
  }

  predicate Before(notable: NotableFlags, i: nat, j: nat) {
    var a, b := Rank(notable, i), Rank(notable, j);
    a < b || (a == b && i < j)
  }

  ghost function Class(matches: set<nat>, notable: NotableFlags, r: nat): (c: set<nat>)
    ensures forall i :: i in c <==> i in matches && Rank(notable, i) == r
  {
    set i | i in matches && Rank(notable, i) == r
  }

  /** The group of a rank, with its header and footer. */
  function GroupOf(r: nat, flags: set<nat>): Group
    requires r <= 5
  {
    match r
    case 0 => Group("", "==========", flags)
    case 1 => Group("-* Matching module flags *-", "===========================", flags)
    case 2 => Group("-* Matching package flags *-", "============================", flags)
    case 3 => Group("-* Commonly used flags *-", "=========================", flags)
    case 4 => Group("-* Matching sub-package flags *-", "================================", flags)
    case 5 => Group("-* Other flags *-", "", flags)
  }

  /** What stands above the flags of each category but the perfect matches. */
  function Title(r: nat): string
    requires 1 <= r <= 5
  {
    match r
    case 1 => "-* Matching module flags *-"
    case 2 => "-* Matching package flags *-"
    case 3 => "-* Commonly used flags *-"
    case 4 => "-* Matching sub-package flags *-"
    case 5 => "-* Other flags *-"
  }

  /** The order of precedence, and what stands above each class but the first. */
  lemma Precedence(notable: NotableFlags, i: nat)
    requires notable.Disjoint()
    ensures i in notable.perfectMatch ==> Rank(notable, i) == 0
    ensures i in notable.moduleFlags ==> Rank(notable, i) == 1 && Title(1) == "-* Matching module flags *-"
    ensures i in notable.packageFlags ==> Rank(notable, i) == 2 && Title(2) == "-* Matching package flags *-"
    ensures i in notable.mostCommon ==> Rank(notable, i) == 3 && Title(3) == "-* Commonly used flags *-"
    ensures i in notable.subpackage ==> Rank(notable, i) == 4 && Title(4) == "-* Matching sub-package flags *-"
    ensures i !in notable.All() ==> Rank(notable, i) == 5 && Title(5) == "-* Other flags *-"
  {
  }

  /** The text above each group, and the rule below it, which is as long as that text. */
  lemma GroupTitle(r: nat, flags: set<nat>)
    requires r <= 5
    ensures GroupOf(r, flags).header == if r == 0 then "" else Title(r)
    ensures |GroupOf(r, flags).footer| == if r == 0 then 10 else if r == 5 then 0 else |Title(r)|
  {
  }

  lemma GroupRule(r: nat, flags: set<nat>)
    requires r <= 5
    ensures forall i | 0 <= i < |GroupOf(r, flags).footer| :: GroupOf(r, flags).footer[i] == '='
  {
  }

  lemma GroupTexts(r: nat, flags: set<nat>)
    requires r <= 5
    ensures var g := GroupOf(r, flags);
            g.flags == flags && (g.header == "" <==> r == 0)
  {
  }

  /** The lines that the classes of the ranks below `r` ask for. */
  ghost function Needed(matches: set<nat>, notable: NotableFlags, r: nat): nat
    requires r <= 6
  {
    if r == 0 then 0
    else
      var flags := Class(matches, notable, r - 1);
      Needed(matches, notable, r - 1) + if flags == {} then 0 else GroupOf(r - 1, flags).SizeInLines()
  }

  lemma {:induction false} NeededGrows(matches: set<nat>, notable: NotableFlags, q: nat, r: nat)
    requires q <= r <= 6
    ensures Needed(matches, notable, q) <= Needed(matches, notable, r)
    decreases r
  {
    if q < r { NeededGrows(matches, notable, q, r - 1); }
  }

  /** What the choice of groups keeps: one group for every nonempty class of a rank below `next`, in
      the order of the ranks. */
  ghost predicate Chosen(
    groups: seq<Group>, ranks: seq<nat>, next: nat, matches: set<nat>, notable: NotableFlags)
  {
    && next <= 6 && |ranks| == |groups|
    && (forall k | 0 <= k < |groups| ::
          && ranks[k] < next && groups[k].flags != {}
          && groups[k] == GroupOf(ranks[k], Class(matches, notable, ranks[k])))
    && (forall k, l | 0 <= k < l < |groups| :: ranks[k] < ranks[l])
    && (forall i | i in matches && Rank(notable, i) < next :: Rank(notable, i) in ranks)
    && TotalSize(groups) == Needed(matches, notable, next)
  }

  /** The last group chosen began within the budget. */
  ghost predicate BeginsWithin(groups: seq<Group>, max: nat) {
    groups != [] ==> TotalSize(groups[..|groups| - 1]) < max
  }

  /** One of the six blocks that choose a group. */
  method AddGroup(
      groups: seq<Group>, lines: nat, max: nat, group: Group,
      ghost r: nat, ghost matches: set<nat>, ghost notable: NotableFlags,
      ghost ranks: seq<nat>, ghost next: nat)
    returns (more: seq<Group>, size: nat, ghost moreRanks: seq<nat>, ghost moreNext: nat)
    requires r <= 5 && Chosen(groups, ranks, next, matches, notable) && lines == TotalSize(groups)
    requires next <= r && (lines < max ==> next == r)
    requires group == GroupOf(r, Class(matches, notable, r)) && BeginsWithin(groups, max)
    ensures BeginsWithin(more, max)
    ensures Chosen(more, moreRanks, moreNext, matches, notable) && size == TotalSize(more)
    ensures moreNext <= r + 1 && (size < max ==> moreNext == r + 1)
    ensures next == r && Needed(matches, notable, r + 1) <= max ==> moreNext == r + 1
    ensures next < r ==> moreNext == next
  {
    hide GroupOf, Chosen, TotalSize, Needed, Rank;
    GroupTexts(r, Class(matches, notable, r));
    more, size, moreRanks, moreNext := groups, lines, ranks, next;
    if lines < max && group.flags != {} {
      more, size := groups + [group], lines + group.SizeInLines();
      moreRanks, moreNext := ranks + [r], r + 1;
      assert more[..|more| - 1] == groups;
      ChosenOne(groups, ranks, group, r, matches, notable);
    } else {
      if next == r {
        ChosenNone(groups, ranks, group, r, matches, notable);
        if group.flags == {} { moreNext := r + 1; }
      }
    }
  }

  lemma ChosenOne(
      groups: seq<Group>, ranks: seq<nat>, group: Group, r: nat, matches: set<nat>, notable: NotableFlags)
    requires r <= 5 && Chosen(groups, ranks, r, matches, notable)
    requires group == GroupOf(r, Class(matches, notable, r)) && group.flags != {}
    ensures Chosen(groups + [group], ranks + [r], r + 1, matches, notable)
    ensures TotalSize(groups + [group]) == TotalSize(groups) + group.SizeInLines()
  {
    GroupTexts(r, Class(matches, notable, r));
    hide GroupOf, Rank, Class, Needed, TotalSize;
    TotalOneMore(groups, group);
    NeededOneMore(matches, notable, r);
    RanksOneMore(ranks, r);
    GroupsOneMore(groups, ranks, group, r, matches, notable);
  }

  lemma RanksOneMore(ranks: seq<nat>, r: nat)
    requires (forall k | 0 <= k < |ranks| :: ranks[k] < r)
    requires forall k, l | 0 <= k < l < |ranks| :: ranks[k] < ranks[l]
    ensures forall k, l | 0 <= k < l < |ranks + [r]| :: (ranks + [r])[k] < (ranks + [r])[l]
    ensures forall q :: q in ranks + [r] <==> q in ranks || q == r
  {
    assert (ranks + [r])[|ranks|] == r;
  }

  lemma GroupsOneMore(
      groups: seq<Group>, ranks: seq<nat>, group: Group, r: nat, matches: set<nat>, notable: NotableFlags)
    requires r <= 5 && |ranks| == |groups|
    requires forall k | 0 <= k < |groups| ::
      && ranks[k] < r && groups[k].flags != {}
      && groups[k] == GroupOf(ranks[k], Class(matches, notable, ranks[k]))
    requires group == GroupOf(r, Class(matches, notable, r)) && group.flags != {}
    ensures var more, all := ranks + [r], groups + [group];
            forall k | 0 <= k < |all| ::
              && more[k] < r + 1 && all[k].flags != {}
              && all[k] == GroupOf(more[k], Class(matches, notable, more[k]))
  {
    hide GroupOf, Class;
  }

  lemma TotalOneMore(groups: seq<Group>, group: Group)
    ensures TotalSize(groups + [group]) == TotalSize(groups) + group.SizeInLines()
  {
    var more := groups + [group];
    assert more[..|more| - 1] == groups;
  }

  lemma NeededOneMore(matches: set<nat>, notable: NotableFlags, r: nat)
    requires r <= 5
    ensures var flags := Class(matches, notable, r);
            Needed(matches, notable, r + 1) ==
              Needed(matches, notable, r) + if flags == {} then 0 else GroupOf(r, flags).SizeInLines()
  {
  }

  lemma ChosenNone(
      groups: seq<Group>, ranks: seq<nat>, group: Group, r: nat, matches: set<nat>, notable: NotableFlags)
    requires r <= 5 && Chosen(groups, ranks, r, matches, notable)
    requires group == GroupOf(r, Class(matches, notable, r))
    ensures group.flags == {} ==> Chosen(groups, ranks, r + 1, matches, notable)
    ensures group.flags != {} ==> Needed(matches, notable, r + 1) > TotalSize(groups)
  {
    GroupTexts(r, Class(matches, notable, r));
    hide GroupOf, Rank, TotalSize;
    if group.flags == {} {
      forall i | i in matches && Rank(notable, i) < r + 1 ensures Rank(notable, i) in ranks {
        assert i !in group.flags;
      }
    }
  }

  /** The first half of FinalizeCompletionOutput. */
  method ChooseGroups(matches: set<nat>, notable: NotableFlags, max: nat, bound: nat)
    returns (groups: seq<Group>, ghost ranks: seq<nat>, ghost next: nat)
    requires notable.Disjoint() && notable.All() <= matches && forall i | i in matches :: i < bound
    ensures Chosen(groups, ranks, next, matches, notable)
    ensures next == 6 || TotalSize(groups) >= max
    ensures BeginsWithin(groups, max)
    ensures Needed(matches, notable, 6) <= max ==> next == 6
  {
    ClassesOf(matches, notable);
    forall r: nat | r <= 6 ensures Needed(matches, notable, r) <= Needed(matches, notable, 6) {
      NeededGrows(matches, notable, r, 6);
    }
    hide Chosen, GroupOf, Needed, TotalSize;
    var lines;
    groups, lines, ranks, next := [], 0, [], 0;
    NothingChosen(matches, notable);
    groups, lines, ranks, next :=
      AddGroup(groups, lines, max, GroupOf(0, notable.perfectMatch), 0, matches, notable, ranks, next);
    groups, lines, ranks, next :=
      AddGroup(groups, lines, max, GroupOf(1, notable.moduleFlags), 1, matches, notable, ranks, next);
    groups, lines, ranks, next :=
      AddGroup(groups, lines, max, GroupOf(2, notable.packageFlags), 2, matches, notable, ranks, next);
    groups, lines, ranks, next :=
      AddGroup(groups, lines, max, GroupOf(3, notable.mostCommon), 3, matches, notable, ranks, next);
    groups, lines, ranks, next :=
      AddGroup(groups, lines, max, GroupOf(4, notable.subpackage), 4, matches, notable, ranks, next);
    var obscure := RetrieveUnusedFlags(matches, notable, bound);
    groups, lines, ranks, next :=
      AddGroup(groups, lines, max, GroupOf(5, obscure), 5, matches, notable, ranks, next);
  }

  lemma NothingChosen(matches: set<nat>, notable: NotableFlags)
    ensures Chosen([], [], 0, matches, notable) && TotalSize([]) == 0
  {
  }

  /** The notable sets and the leftover set partition the matches. */
  lemma ClassesOf(matches: set<nat>, notable: NotableFlags)
    requires notable.Disjoint() && notable.All() <= matches
    ensures Class(matches, notable, 0) == notable.perfectMatch
    ensures Class(matches, notable, 1) == notable.moduleFlags
    ensures Class(matches, notable, 2) == notable.packageFlags
    ensures Class(matches, notable, 3) == notable.mostCommon
    ensures Class(matches, notable, 4) == notable.subpackage
    ensures Class(matches, notable, 5) == matches - notable.All()
  {
  }

  // ----- Output -----

  /** One string of the vector `completions`: a header, rule or footer, the line of a flag, or
      "~ (Remaining flags hidden) ~". */
  datatype Entry = Text(text: string) | FlagLine(flag: nat, indent: string, long: bool) | Hidden

  function Repeat(c: char, n: nat): (s: string)
    ensures |s| == n && forall i | 0 <= i < n :: s[i] == c
  {
    seq(n, i => c)
  }

  /** The flags of a list of entries, in order. */
  function Shown(entries: seq<Entry>): seq<nat> {
    if entries == [] then []
    else
      var last := |entries| - 1;
      Shown(entries[..last]) + if entries[last].FlagLine? then [entries[last].flag] else []
  }

  function FlagLines(flags: seq<nat>, indent: string, long: bool): seq<Entry> {
    seq(|flags|, i requires 0 <= i < |flags| => FlagLine(flags[i], indent, long))
  }

  function HeaderEntries(header: string, indent: string): seq<Entry> {
    if header == "" then [] else [Text(indent + header), Text(indent + Repeat('-', |header|))]
  }

  lemma ShownAppend(entries: seq<Entry>, e: Entry)
    ensures Shown(entries + [e]) == Shown(entries) + if e.FlagLine? then [e.flag] else []
  {
    assert (entries + [e])[..|entries|] == entries;
  }

  lemma {:induction false} ShownConcat(a: seq<Entry>, b: seq<Entry>)
    ensures Shown(a + b) == Shown(a) + Shown(b)
  {
    if b == [] {
      assert a + b == a;
    } else {
      var c, e := b[..|b| - 1], b[|b| - 1];
      assert a + b == (a + c) + [e] && b == c + [e];
      ShownConcat(a, c);
      ShownAppend(a + c, e);
      ShownAppend(c, e);
    }
  }

  lemma {:induction false} ShownFlagLines(flags: seq<nat>, indent: string, long: bool)
    ensures Shown(FlagLines(flags, indent, long)) == flags
  {
    if flags != [] {
      var init, x := flags[..|flags| - 1], flags[|flags| - 1];
      assert FlagLines(flags, indent, long) == FlagLines(init, indent, long) + [FlagLine(x, indent, long)];
      ShownFlagLines(init, indent, long);
      ShownAppend(FlagLines(init, indent, long), FlagLine(x, indent, long));
    }
  }

  /** `order` lists the least elements of `flags`. */
  ghost predicate LeastOf(order: seq<nat>, flags: set<nat>) {
    && (forall a, b | 0 <= a < b < |order| :: order[a] < order[b])
    && (forall x | x in order :: x in flags)
    && (forall x, i | x in order && i in flags && i < x :: i in order)
  }

  function Min(a: nat, b: nat): nat { if a < b then a else b }

  lemma {:induction false} DistinctSize(s: seq<nat>, flags: set<nat>)
    requires forall a, b | 0 <= a < b < |s| :: s[a] != s[b]
    requires forall x | x in s :: x in flags
    ensures |s| <= |flags|
    ensures |s| == |flags| <==> forall i | i in flags :: i in s
    decreases |s|
  {
    if s == [] {
      if i :| i in flags { assert i !in s; }
    } else {
      var init, x := s[..|s| - 1], s[|s| - 1];
      assert s == init + [x];
      assert x in s && x !in init;
      assert forall y | y in init :: y in s;
      DistinctSize(init, flags - {x});
      assert flags == flags - {x} + {x};
    }
  }

  lemma LeastNext(order: seq<nat>, flags: set<nat>, i: nat)
    requires LeastOf(order, flags) && i in flags
    requires forall x | x in order :: x < i
    requires forall x | x in flags && x < i :: x in order
    ensures LeastOf(order + [i], flags)
  {
    forall a, b | 0 <= a < b < |order + [i]| ensures (order + [i])[a] < (order + [i])[b] {
      assert order[a] in order;
    }
  }

  /** Some flags of a group are written, as far as `limit` allows, and so many entries are added as the
      limit is lowered by. Nothing is written without a place for the whole header; the footer is
      written if a line is left for it. */
  ghost predicate GroupWritten(
    group: Group, indent: string, long: bool, limit: nat, completions: seq<Entry>,
    remaining: nat, result: seq<Entry>, order: seq<nat>)
  {
    var head := if group.header == "" then 0 else 2;
    if group.flags == {} || limit < head then
      result == completions && order == [] && remaining == limit
    else
      var foot := if group.footer != "" && limit - head > |group.flags| then 1 else 0;
      && |order| == Min(|group.flags|, limit - head)
      && remaining == limit - head - |order| - foot
      && result == completions + HeaderEntries(group.header, indent) + FlagLines(order, indent, long)
           + if foot == 1 then [Text(indent + group.footer)] else []
  }

  predicate LongIs(entries: seq<Entry>, flags: set<nat>) {
    forall e | e in entries && e.FlagLine? :: e.long <==> e.flag in flags
  }

  lemma ShownParts(c: seq<Entry>, head: seq<Entry>, order: seq<nat>, indent: string, long: bool, foot: seq<Entry>)
    requires Shown(head) == [] && Shown(foot) == []
    ensures Shown(c + head + FlagLines(order, indent, long) + foot) == Shown(c) + order
  {
    hide FlagLines, Shown;
    var lines := FlagLines(order, indent, long);
    ShownConcat(c + head + lines, foot);
    ShownConcat(c + head, lines);
    ShownConcat(c, head);
    ShownFlagLines(order, indent, long);
  }

  lemma KindsOfParts(c: seq<Entry>, head: seq<Entry>, order: seq<nat>, indent: string, long: bool, foot: seq<Entry>)
    requires forall e | e in head + foot :: e.Text?
    ensures var all := c + head + FlagLines(order, indent, long) + foot;
            forall e | e in all :: e in c || e.Text? || (e.FlagLine? && e.long == long && e.flag in order)
  {
    assert forall e | e in FlagLines(order, indent, long) :: e.FlagLine? && e.long == long && e.flag in order;
  }

  lemma HeaderAndFooter(group: Group, indent: string)
    ensures var head, foot := HeaderEntries(group.header, indent), [Text(indent + group.footer)];
            && Shown(head) == Shown(foot) == Shown([]) == []
            && (forall e | e in head + foot :: e.Text?) && (forall e | e in head + [] :: e.Text?)
  {
    if group.header != "" {
      ShownAppend([Text(indent + group.header)], Text(indent + Repeat('-', |group.header|)));
    }
  }

  lemma WrittenEntries(
      group: Group, indent: string, long: bool, limit: nat, completions: seq<Entry>,
      remaining: nat, result: seq<Entry>, order: seq<nat>)
    requires GroupWritten(group, indent, long, limit, completions, remaining, result, order)
    ensures Shown(result) == Shown(completions) + order
    ensures forall e | e in result ::
      e in completions || e.Text? || (e.FlagLine? && e.long == long && e.flag in order)
  {
    if group.flags != {} && (group.header == "" || limit >= 2) {
      var head := HeaderEntries(group.header, indent);
      var foot: seq<Entry> :=
        if group.footer != "" && limit - (if group.header == "" then 0 else 2) > |group.flags|
        then [Text(indent + group.footer)] else [];
      HeaderAndFooter(group, indent);
      hide FlagLines, HeaderEntries, Shown;
      ShownParts(completions, head, order, indent, long, foot);
      KindsOfParts(completions, head, order, indent, long, foot);
    }
  }

  /** Every flag but the perfect matches stands below the title of its category, with the same indentation. */
  ghost predicate Titled(entries: seq<Entry>, notable: NotableFlags) {
    forall k | 0 <= k < |entries| && entries[k].FlagLine? && Rank(notable, entries[k].flag) > 0 ::
      Text(entries[k].indent + Title(Rank(notable, entries[k].flag))) in entries[..k]
  }

  lemma TitledMore(entries: seq<Entry>, more: seq<Entry>, notable: NotableFlags)
    requires Titled(entries, notable)
    requires forall k | 0 <= k < |more| && more[k].FlagLine? && Rank(notable, more[k].flag) > 0 ::
      Text(more[k].indent + Title(Rank(notable, more[k].flag))) in entries
    ensures Titled(entries + more, notable)
  {
    hide Title, Rank;
    var all := entries + more;
    forall k | 0 <= k < |all| && all[k].FlagLine? && Rank(notable, all[k].flag) > 0
      ensures Text(all[k].indent + Title(Rank(notable, all[k].flag))) in all[..k]
    {
      if k < |entries| {
        assert all[..k] == entries[..k];
      } else {
        assert all[..k] == entries + more[..k - |entries|];
      }
    }
  }

  lemma WrittenTitles(
      group: Group, indent: string, long: bool, limit: nat, completions: seq<Entry>,
      remaining: nat, result: seq<Entry>, order: seq<nat>, notable: NotableFlags, r: nat)
    requires GroupWritten(group, indent, long, limit, completions, remaining, result, order)
    requires r <= 5 && group.header == (if r == 0 then "" else Title(r)) && (group.header == "" <==> r == 0)
    requires Titled(completions, notable) && forall x | x in order :: Rank(notable, x) == r
    ensures Titled(result, notable)
  {
    if group.flags != {} && (group.header == "" || limit >= 2) {
      var head, lines := HeaderEntries(group.header, indent), FlagLines(order, indent, long);
      var foot: seq<Entry> :=
        if group.footer != "" && limit - (if group.header == "" then 0 else 2) > |group.flags|
        then [Text(indent + group.footer)] else [];
      assert result == completions + head + lines + foot;
      assert r > 0 ==> head[0] == Text(indent + Title(r));
      assert r > 0 ==> (completions + head)[|completions|] == head[0];
      hide Title, Rank, Titled, GroupWritten;
      TitledMore(completions, head, notable);
      assert forall k | 0 <= k < |lines| :: lines[k] == FlagLine(order[k], indent, long);
      TitledMore(completions + head, lines, notable);
      TitledMore(completions + head + lines, foot, notable);
    }
  }

  lemma WrittenAmount(
      group: Group, indent: string, long: bool, limit: nat, completions: seq<Entry>,
      remaining: nat, result: seq<Entry>, order: seq<nat>)
    requires GroupWritten(group, indent, long, limit, completions, remaining, result, order)
    ensures remaining + group.SizeInLines() >= limit && remaining <= limit
    ensures limit >= group.SizeInLines() ==> |order| == |group.flags|
    ensures |order| == |group.flags| || remaining <= 1
    ensures group.flags != {} ==>
      remaining <= 1 || remaining + group.SizeInLines() <= limit + if group.header == "" then 1 else 0
    ensures |result| + remaining == |completions| + limit
    ensures group.header != "" && limit <= 1 ==> order == []
  {
  }

  /** The loop over a group: as many flags as the limit allows, first flags first. */
  method OutputFlags(
      flags: set<nat>, indent: string, long: bool, limit: nat, elements: nat, completions: seq<Entry>,
      bound: nat)
    returns (remaining: nat, output: nat, result: seq<Entry>, ghost order: seq<nat>)
    requires forall i | i in flags :: i < bound
    ensures LeastOf(order, flags) && |order| == Min(|flags|, limit)
    ensures remaining == limit - |order| && output == elements + |order|
    ensures result == completions + FlagLines(order, indent, long)
  {
    remaining, output, result, order := limit, elements, completions, [];
    for i := 0 to bound
      invariant 0 <= remaining <= limit && |order| == limit - remaining && output == elements + |order|
      invariant LeastOf(order, flags) && forall x | x in order :: x < i
      invariant remaining > 0 ==> forall x | x in flags && x < i :: x in order
      invariant result == completions + FlagLines(order, indent, long)
    {
      if remaining > 0 && i in flags {
        remaining := remaining - 1;
        output := output + 1;
        result := result + [FlagLine(i, indent, long)];
        LeastNext(order, flags, i);
        FlagLinesAppend(order, i, indent, long);
        order := order + [i];
      }
    }
    DistinctSize(order, flags);
  }

  lemma FlagLinesAppend(order: seq<nat>, i: nat, indent: string, long: bool)
    ensures FlagLines(order + [i], indent, long) == FlagLines(order, indent, long) + [FlagLine(i, indent, long)]
  {
  }

  /** OutputSingleGroupWithLimit: the header, as many flags as the limit allows, first flags first, and
      the footer if a line is left. */
  method OutputSingleGroupWithLimit(
      group: Group, indent: string, long: bool, limit: nat, elements: nat, completions: seq<Entry>,
      bound: nat)
    returns (remaining: nat, output: nat, result: seq<Entry>, ghost order: seq<nat>)
    requires forall i | i in group.flags :: i < bound
    ensures LeastOf(order, group.flags) && output == elements + |order|
    ensures GroupWritten(group, indent, long, limit, completions, remaining, result, order)
  {
    hide FlagLines, LeastOf;
    remaining, output, result, order := limit, elements, completions, [];
    if group.flags == {} {
      NoneLeast(group.flags);
      return;
    }
    if group.header != "" {
      if remaining < 2 {
        NoneLeast(group.flags);
        return;
      }
      remaining := remaining - 2;
      result := result + [Text(indent + group.header)];
      result := result + [Text(indent + Repeat('-', |group.header|))];
    }
    assert result == completions + HeaderEntries(group.header, indent);
    remaining, output, result, order :=
      OutputFlags(group.flags, indent, long, remaining, output, result, bound);
    if group.footer != "" {
      if remaining < 1 { return; }
      remaining := remaining - 1;
      result := result + [Text(indent + group.footer)];
    }
  }

  lemma NoneLeast(flags: set<nat>)
    ensures LeastOf([], flags)
  {
  }

  // ----- All groups -----

  ghost predicate Sorted(shown: seq<nat>, notable: NotableFlags) {
    forall a, b | 0 <= a < b < |shown| :: Before(notable, shown[a], shown[b])
  }

  /** `shown` lists the first of the matches, in the order of precedence. */
  ghost predicate FirstMatches(shown: seq<nat>, matches: set<nat>, notable: NotableFlags) {
    && Sorted(shown, notable)
    && (forall x | x in shown :: x in matches)
    && (forall x, i | x in shown && i in matches && Before(notable, i, x) :: i in shown)
  }

  /** No flag is listed twice, and the count tells whether all are listed. */
  lemma FirstMatchesSize(shown: seq<nat>, matches: set<nat>, notable: NotableFlags)
    requires FirstMatches(shown, matches, notable)
    ensures |shown| <= |matches|
    ensures |shown| == |matches| <==> forall i | i in matches :: i in shown
  {
    DistinctSize(shown, matches);
  }

  /** The flags of the first `j` groups. */
  ghost predicate FromGroups(
    shown: seq<nat>, j: nat, groups: seq<Group>, ranks: seq<nat>, notable: NotableFlags)
    requires |ranks| == |groups|
  {
    forall x, l | x in shown && j <= l < |groups| :: Rank(notable, x) < ranks[l]
  }

  ghost predicate AllShown(shown: seq<nat>, j: nat, groups: seq<Group>)
    requires j <= |groups|
  {
    forall k, i | 0 <= k < j && i in groups[k].flags :: i in shown
  }

  /** One more group is shown, in full or in part, after all flags of the groups before it. */
  lemma GroupShown(
      shown: seq<nat>, order: seq<nat>, j: nat, groups: seq<Group>, ranks: seq<nat>, next: nat,
      matches: set<nat>, notable: NotableFlags)
    requires Chosen(groups, ranks, next, matches, notable) && j < |groups|
    requires FirstMatches(shown, matches, notable) && FromGroups(shown, j, groups, ranks, notable)
    requires LeastOf(order, groups[j].flags) && (order == [] || AllShown(shown, j, groups))
    ensures FirstMatches(shown + order, matches, notable)
    ensures FromGroups(shown + order, j + 1, groups, ranks, notable)
    ensures AllShown(shown, j, groups) && |order| == |groups[j].flags| ==>
      AllShown(shown + order, j + 1, groups)
  {
    var r := ranks[j];
    GroupTexts(r, Class(matches, notable, r));
    hide GroupOf, Needed, TotalSize, Rank;
    DistinctSize(order, groups[j].flags);
    var all := shown + order;
    forall a, b | 0 <= a < b < |all| ensures Before(notable, all[a], all[b]) {
      if a < |shown| {
        assert all[a] in shown;
        if b >= |shown| { assert all[b] in order; }
      } else {
        assert all[a] in order && all[b] in order;
      }
    }
    forall x, i | x in all && i in matches && Before(notable, i, x) ensures i in all {
      if x !in shown {
        assert x in order;
        var q := Rank(notable, i);
        assert q in ranks;
        var k :| 0 <= k < |ranks| && ranks[k] == q;
        GroupTexts(q, Class(matches, notable, q));
        assert k <= j;
      }
    }
  }

  lemma GroupAt(
      groups: seq<Group>, ranks: seq<nat>, next: nat, matches: set<nat>, notable: NotableFlags, j: nat)
    requires Chosen(groups, ranks, next, matches, notable) && j < |groups|
    ensures groups[j].header == "" ==> j == 0
    ensures groups[j].flags <= matches && groups[j].flags != {}
    ensures TotalSize(groups[..j + 1]) == TotalSize(groups[..j]) + groups[j].SizeInLines()
    ensures TotalSize(groups[..j + 1]) <= TotalSize(groups)
  {
    GroupTexts(ranks[j], Class(matches, notable, ranks[j]));
    assert j > 0 ==> ranks[0] < ranks[j];
    hide GroupOf, Rank, Needed, Chosen;
    assert groups[..j + 1][..j] == groups[..j];
    TotalGrows(groups, j + 1);
  }

  lemma GroupRank(
      groups: seq<Group>, ranks: seq<nat>, next: nat, matches: set<nat>, notable: NotableFlags, j: nat,
      order: seq<nat>)
    requires Chosen(groups, ranks, next, matches, notable) && j < |groups| && LeastOf(order, groups[j].flags)
    ensures |ranks| == |groups| && ranks[j] <= 5
    ensures groups[j].header == (if ranks[j] == 0 then "" else Title(ranks[j]))
    ensures groups[j].header == "" <==> ranks[j] == 0
    ensures forall x | x in order :: Rank(notable, x) == ranks[j]
  {
    GroupTexts(ranks[j], Class(matches, notable, ranks[j]));
    GroupTitle(ranks[j], Class(matches, notable, ranks[j]));
    hide GroupOf, Rank, Needed, TotalSize, Title;
  }

  lemma GroupTitled(
      groups: seq<Group>, ranks: seq<nat>, next: nat, matches: set<nat>, notable: NotableFlags, j: nat,
      indent: string, long: bool, limit: nat, completions: seq<Entry>,
      remaining: nat, result: seq<Entry>, order: seq<nat>)
    requires Chosen(groups, ranks, next, matches, notable) && j < |groups| && LeastOf(order, groups[j].flags)
    requires GroupWritten(groups[j], indent, long, limit, completions, remaining, result, order)
    requires Titled(completions, notable)
    ensures Titled(result, notable)
  {
    hide Chosen, LeastOf, GroupWritten, Titled;
    GroupRank(groups, ranks, next, matches, notable, j, order);
    WrittenTitles(groups[j], indent, long, limit, completions, remaining, result, order, notable, ranks[j]);
  }

  lemma LongStep(
      group: Group, before: seq<Entry>, entries: seq<Entry>, order: seq<nat>, perfect: set<nat>, long: bool)
    requires LeastOf(order, group.flags) && forall i | i in group.flags :: i in perfect <==> long
    requires LongIs(before, perfect)
    requires forall e | e in entries ::
      e in before || e.Text? || (e.FlagLine? && e.long == long && e.flag in order)
    ensures LongIs(entries, perfect)
  {
  }

  /** Only the first group can be that of the perfect matches, and it is if there are any. */
  lemma PerfectAt(
      groups: seq<Group>, ranks: seq<nat>, next: nat, matches: set<nat>, notable: NotableFlags, j: nat)
    requires Chosen(groups, ranks, next, matches, notable) && j < |groups|
    requires notable.perfectMatch <= matches
    ensures forall i | i in groups[j].flags ::
      i in notable.perfectMatch <==> j == 0 && notable.perfectMatch != {}
  {
    GroupTexts(ranks[j], Class(matches, notable, ranks[j]));
    hide GroupOf, Needed, TotalSize;
    assert j > 0 ==> ranks[0] < ranks[j];
    if p :| p in notable.perfectMatch {
      assert Rank(notable, p) == 0 && 0 in ranks;
      var k :| 0 <= k < |ranks| && ranks[k] == 0;
      assert ranks[0] == 0;
    }
  }

  lemma {:induction false} TotalGrows(groups: seq<Group>, j: nat)
    requires j <= |groups|
    ensures TotalSize(groups[..j]) <= TotalSize(groups)
  {
    if j == |groups| {
      assert groups[..j] == groups;
    } else {
      var init := groups[..|groups| - 1];
      assert groups[..j] == init[..j];
      TotalGrows(init, j);
    }
  }

  lemma NothingShown(groups: seq<Group>, ranks: seq<nat>, matches: set<nat>, notable: NotableFlags)
    requires |ranks| == |groups|
    ensures Shown([]) == [] && FirstMatches([], matches, notable) && TotalSize(groups[..0]) == 0
    ensures LongIs([], notable.perfectMatch) && Titled([], notable)
    ensures FromGroups([], 0, groups, ranks, notable) && AllShown([], 0, groups)
  {
  }

  /** The lines that are left after groups of `total` lines. */
  predicate Spent(total: nat, j: nat, max: nat, remaining: nat, written: nat) {
    && written + remaining == max
    && remaining + total >= max
    && (remaining <= 1 || remaining + total <= max + if j > 0 then 1 else 0)
  }

  lemma SpentStep(group: Group, total: nat, j: nat, max: nat, limit: nat, before: nat, remaining: nat, after: nat)
    requires Spent(total, j, max, limit, before) && group.flags != {} && (group.header == "" ==> j == 0)
    requires remaining + group.SizeInLines() >= limit && remaining <= limit
    requires remaining <= 1 || remaining + group.SizeInLines() <= limit + if group.header == "" then 1 else 0
    requires after + remaining == before + limit
    ensures Spent(total + group.SizeInLines(), j + 1, max, remaining, after)
  {
    hide Group.SizeInLines;
  }

  /** What the output of the first `j` groups keeps. */
  ghost predicate Progress(
    groups: seq<Group>, ranks: seq<nat>, j: nat, max: nat, matches: set<nat>, notable: NotableFlags,
    remaining: nat, completions: seq<Entry>)
    requires j <= |groups| && |ranks| == |groups|
  {
    && Spent(TotalSize(groups[..j]), j, max, remaining, |completions|)
    && Hidden !in completions
    && LongIs(completions, notable.perfectMatch) && Titled(completions, notable)
    && FirstMatches(Shown(completions), matches, notable)
    && FromGroups(Shown(completions), j, groups, ranks, notable)
    && ((j > 0 && remaining <= 1) || AllShown(Shown(completions), j, groups))
    && (TotalSize(groups) <= max ==> AllShown(Shown(completions), j, groups))
  }

  lemma ProgressStep(
      groups: seq<Group>, ranks: seq<nat>, next: nat, j: nat, max: nat, matches: set<nat>, notable: NotableFlags,
      indent: string, long: bool, limit: nat, before: seq<Entry>,
      remaining: nat, result: seq<Entry>, order: seq<nat>)
    requires Chosen(groups, ranks, next, matches, notable) && j < |groups|
    requires notable.perfectMatch <= matches && (long <==> j == 0 && notable.perfectMatch != {})
    requires Progress(groups, ranks, j, max, matches, notable, limit, before)
    requires LeastOf(order, groups[j].flags)
    requires GroupWritten(groups[j], indent, long, limit, before, remaining, result, order)
    ensures Progress(groups, ranks, j + 1, max, matches, notable, remaining, result)
    ensures |Shown(result)| == |Shown(before)| + |order|
  {
    GroupAt(groups, ranks, next, matches, notable, j);
    PerfectAt(groups, ranks, next, matches, notable, j);
    hide Chosen, Shown, TotalSize, FirstMatches, FromGroups, GroupWritten, LeastOf, LongIs, Titled, AllShown, Rank;
    hide Group.SizeInLines, Class, Needed;
    WrittenEntries(groups[j], indent, long, limit, before, remaining, result, order);
    WrittenAmount(groups[j], indent, long, limit, before, remaining, result, order);
    SpentStep(groups[j], TotalSize(groups[..j]), j, max, limit, |before|, remaining, |result|);
    assert limit <= 1 && j > 0 ==> order == [];
    assert TotalSize(groups) <= max ==> limit >= groups[j].SizeInLines();
    hide Spent;
    GroupTitled(groups, ranks, next, matches, notable, j, indent, long, limit, before, remaining, result, order);
    GroupShown(Shown(before), order, j, groups, ranks, next, matches, notable);
    LongStep(groups[j], before, result, order, notable.perfectMatch, long);
  }

  /** The second half of FinalizeCompletionOutput. */
  method WriteGroups(
      groups: seq<Group>, long: bool, max: nat, bound: nat,
      ghost ranks: seq<nat>, ghost next: nat, ghost matches: set<nat>, ghost notable: NotableFlags)
    returns (output: nat, completions: seq<Entry>)
    requires Chosen(groups, ranks, next, matches, notable) && forall i | i in matches :: i < bound
    requires notable.perfectMatch <= matches && (long <==> notable.perfectMatch != {})
    ensures LongIs(completions, notable.perfectMatch) && Titled(completions, notable)
    ensures |completions| <= max && Hidden !in completions && output == |Shown(completions)|
    ensures FirstMatches(Shown(completions), matches, notable)
    ensures TotalSize(groups) <= max ==> AllShown(Shown(completions), |groups|, groups)
    ensures |completions| + 1 < max ==>
      TotalSize(groups) < max && AllShown(Shown(completions), |groups|, groups)
  {
    NothingShown(groups, ranks, matches, notable);
    var remaining: nat, j, perfectMatchFound := max, 0, long;
    output, completions := 0, [];
    hide Chosen, Shown, TotalSize, FirstMatches, FromGroups, AllShown, GroupWritten, LeastOf, LongIs, Titled;
    while j < |groups|
      invariant j <= |groups| && |ranks| == |groups|
      invariant Progress(groups, ranks, j, max, matches, notable, remaining, completions)
      invariant perfectMatchFound == (long && j == 0) && output == |Shown(completions)|
    {
      hide Progress;
      ghost var order;
      ghost var before, limit := completions, remaining;
      var indent := Repeat(' ', |groups| - 1 - j);
      GroupAt(groups, ranks, next, matches, notable, j);
      remaining, output, completions, order :=
        OutputSingleGroupWithLimit(groups[j], indent, perfectMatchFound, remaining, output, completions, bound);
      ProgressStep(groups, ranks, next, j, max, matches, notable, indent, perfectMatchFound, limit, before,
                   remaining, completions, order);
      perfectMatchFound := false;
      j := j + 1;
    }
    assert groups[..j] == groups;
  }

  lemma AllMatchesShown(
      shown: seq<nat>, groups: seq<Group>, ranks: seq<nat>, matches: set<nat>, notable: NotableFlags)
    requires Chosen(groups, ranks, 6, matches, notable) && AllShown(shown, |groups|, groups)
    ensures forall i | i in matches :: i in shown
  {
    hide GroupOf, Needed, TotalSize;
    forall i | i in matches ensures i in shown {
      var r := Rank(notable, i);
      assert r in ranks;
      var k :| 0 <= k < |ranks| && ranks[k] == r;
      GroupTexts(r, Class(matches, notable, r));
      assert i in groups[k].flags;
    }
  }

  /** FinalizeCompletionOutput: the flags shown are the first matches in the order of precedence; the
      last entry says that some are hidden exactly when some are; the budget of lines is kept but for
      that entry; something is hidden only when the budget is used up, and nothing when the groups as a
      whole fit into it. */
  method FinalizeCompletionOutput(
      matches: set<nat>, options: Options, notable: NotableFlags, bound: nat)
    returns (completions: seq<Entry>, forceNoUpdate: bool)
    requires notable.Disjoint() && notable.All() <= matches && forall i | i in matches :: i < bound
    ensures FirstMatches(Shown(completions), matches, notable)
    ensures LongIs(completions, notable.perfectMatch) && Titled(completions, notable)
    ensures forceNoUpdate <==> forall i | i in matches :: i in Shown(completions)
    ensures Hidden in completions <==> !forceNoUpdate
    ensures !forceNoUpdate ==> completions[|completions| - 1] == Hidden
    ensures var max := MaxDesiredLines(options);
            && |completions| <= max + (if forceNoUpdate then 0 else 1)
            && (Needed(matches, notable, 6) <= max ==> forceNoUpdate)
            && (!forceNoUpdate ==> |completions| >= max)
  {
    hide Shown, FirstMatches, Needed, Chosen, AllShown, Titled;
    var max := MaxDesiredLines(options);
    var groups, ranks, next := ChooseGroups(matches, notable, max, bound);
    var output;
    output, completions :=
      WriteGroups(groups, notable.perfectMatch != {}, max, bound, ranks, next, matches, notable);
    FirstMatchesSize(Shown(completions), matches, notable);
    if Needed(matches, notable, 6) <= max || |completions| + 1 < max {
      ChosenTotal(groups, ranks, next, matches, notable);
      AllMatchesShown(Shown(completions), groups, ranks, matches, notable);
    }
    if output != |matches| {
      forceNoUpdate := false;
      ShownAppend(completions, Hidden);
      TitledMore(completions, [Hidden], notable);
      assert Shown(completions) + [] == Shown(completions);
      completions := completions + [Hidden];
    } else {
      forceNoUpdate := true;
    }
  }

  lemma ChosenTotal(
      groups: seq<Group>, ranks: seq<nat>, next: nat, matches: set<nat>, notable: NotableFlags)
    requires Chosen(groups, ranks, next, matches, notable)
    ensures next <= 6 && TotalSize(groups) == Needed(matches, notable, next)
  {
  }

  function MaxDesiredLines(options: Options): nat {
    if options.allMatching then 999999 else 98
  }

  datatype Completion = Nothing | LongerPrefix(prefix: string) | Lines(entries: seq<Entry>)

  /** All matches are among the lines. */
  ghost predicate ShowsAll(entries: seq<Entry>, matches: set<nat>) {
    forall i | i in matches :: i in Shown(entries)
  }

  /** PrintFlagCompletionInfo, behind the analysis of the cursor word; its sets of matches and of
      notable flags are returned as well. One more entry than the budget allows at most: the last one says
      that flags are hidden, or keeps bash from replacing the word when all of them are shown. */
  method CompletionInfo(
      all: seq<Registry.CommandLineFlagInfo>, options: Options, token: string, mod: string, packageDir: string)
    returns (out: Completion, matches: set<nat>, notable: NotableFlags)
    ensures forall i: nat :: i in matches <==> i < |all| && DoesSingleFlagMatch(all[i], options, token)
    ensures out.Nothing? <==> matches == {}
    ensures out.LongerPrefix? <==>
      matches != {} && exists p: string :: IsCommonPrefix(p, all, matches) && |p| > |token|
    ensures out.LongerPrefix? ==>
      && IsCommonPrefix(out.prefix, all, matches)
      && (forall p: string | IsCommonPrefix(p, all, matches) :: p <= out.prefix)
      && (!options.nameSearch && !options.locationSearch && !options.descriptionSearch ==> token <= out.prefix)
    ensures out.Lines? ==>
      && IsCategory(notable.perfectMatch, PerfectMatch, matches, all, token, mod, packageDir)
      && IsCategory(notable.moduleFlags, ModuleFlag, matches, all, token, mod, packageDir)
      && IsCategory(notable.packageFlags, PackageFlag, matches, all, token, mod, packageDir)
      && IsCategory(notable.subpackage, SubpackageFlag, matches, all, token, mod, packageDir)
      && notable.mostCommon == {}
      && FirstMatches(Shown(out.entries), matches, notable) && LongIs(out.entries, notable.perfectMatch)
      && Titled(out.entries, notable)
      && |out.entries| <= (if options.allMatching then 1000000 else 99) && out.entries != []
      && out.entries[|out.entries| - 1] == (if ShowsAll(out.entries, matches) then Text("~") else Hidden)
      && (Hidden in out.entries <==> !ShowsAll(out.entries, matches))
      && (Needed(matches, notable, 6) <= (if options.allMatching then 999999 else 98) ==>
            ShowsAll(out.entries, matches))
      && (!ShowsAll(out.entries, matches) ==> |out.entries| >= if options.allMatching then 999999 else 98)
  {
    hide DoesSingleFlagMatch, IsCategory, FirstMatches, Shown, CategoryOf, Needed, IsCommonPrefix, LongIs, Titled;
    var prefix;
    matches, prefix := FindMatchingFlags(all, options, token);
    notable := NotableFlags({}, {}, {}, {}, {});
    if |prefix| > |token| {
      return LongerPrefix(prefix), matches, notable;
    }
    if matches == {} {
      return Nothing, matches, notable;
    }
    notable := CategorizeAllMatchingFlags(all, matches, token, mod, packageDir);
    var entries, forceNoUpdate := FinalizeCompletionOutput(matches, options, notable, |all|);
    if forceNoUpdate {
      TildeAppended(entries, notable.perfectMatch);
      TitledMore(entries, [Text("~")], notable);
      entries := entries + [Text("~")];
    }
    out := Lines(entries);
  }

  lemma TildeAppended(entries: seq<Entry>, flags: set<nat>)
    ensures Shown(entries + [Text("~")]) == Shown(entries)
    ensures LongIs(entries, flags) ==> LongIs(entries + [Text("~")], flags)
  {
    ShownAppend(entries, Text("~"));
    assert Shown(entries) + [] == Shown(entries);
  }
}
