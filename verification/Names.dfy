/** Resolving what stands between the dashes and the value: FindFlagLocked, SplitArgumentLocked
    and ParseFlagList. */
module Names {
  import opened Text
  import Values
  import Flags

  /** The registered names and their types; no parse ever changes them. */
  type Signature = map<string, Values.FlagType>

  /** std::replace(begin, end, '-', '_') */
  function Underscored(name: string): (r: string)
    ensures |r| == |name| && '-' !in r
    ensures forall i | 0 <= i < |name| :: r[i] == if name[i] == '-' then '_' else name[i]
  {
    if name == "" then ""
    else [if name[0] == '-' then '_' else name[0]] + Underscored(name[1..])
  }

  /** FindFlagLocked: the registered name meant by `name`. */
  function FindFlag(sig: Signature, name: string): (r: Option<string>)
    ensures r.Some? ==> r.value in sig
  {
    if name in sig then Some(name)
    else if '-' in name && Underscored(name) in sig then Some(Underscored(name))
    else None
  }

  datatype Argument =
    | Resolved(key: string, flag: string, value: Option<string>)
    | Unresolved(key: string, error: Flags.Error)

  predicate HasNoPrefix(key: string) {
    |key| >= 2 && key[0] == 'n' && key[1] == 'o'
  }

  /** SplitArgumentLocked on an argument whose leading dashes are gone. */
  function SplitArgument(sig: Signature, arg: string): Argument {
    var i := IndexOf(arg, '=');
    var key := arg[..i];
    var value := if i == |arg| then None else Some(arg[i + 1..]);
    match FindFlag(sig, key)
    case Some(flag) =>
      Resolved(key, flag, if value.None? && sig[flag] == Values.FvBool then Some("1") else value)
    case None =>
      if !HasNoPrefix(key) then Unresolved(key, Flags.UnknownFlag)
      else
        match FindFlag(sig, key[2..])
        case None => Unresolved(key, Flags.UnknownFlag)
        case Some(flag) =>
          if sig[flag] != Values.FvBool then Unresolved(key, Flags.BoolForNonBool(sig[flag]))
          else Resolved(key[2..], flag, Some("0"))
  }

  /** The key of a refused argument never names a flag; the key of an accepted one always does.
      A boolean flag always gets a value. */
  lemma SplitResolves(sig: Signature, arg: string)
    ensures match SplitArgument(sig, arg)
            case Unresolved(key, _) => FindFlag(sig, key).None?
            case Resolved(key, flag, value) =>
              FindFlag(sig, key) == Some(flag) && (sig[flag] == Values.FvBool ==> value.Some?)
  {
  }

  /** --name=value reaches the flag `name` with exactly `value`, whatever `value` contains. */
  lemma SplitNameValue(sig: Signature, name: string, value: string)
    requires '=' !in name && FindFlag(sig, name).Some?
    ensures SplitArgument(sig, name + "=" + value) ==
            Resolved(name, FindFlag(sig, name).value, Some(value))
  {
    IndexOfAppend(name, "=" + value, '=');
    var arg := name + ("=" + value);
    assert name + "=" + value == arg && arg[|name|..][1..] == arg[|name| + 1..] == value;
  }

  /** --nofoo switches a boolean foo off and drops whatever value was given with it. */
  lemma SplitNegated(sig: Signature, name: string, tail: string)
    requires '=' !in name && FindFlag(sig, name).Some? && sig[FindFlag(sig, name).value] == Values.FvBool
    requires FindFlag(sig, "no" + name).None?
    requires tail == "" || tail[0] == '='
    ensures SplitArgument(sig, "no" + name + tail) ==
            Resolved(name, FindFlag(sig, name).value, Some("0"))
  {
    var key := "no" + name;
    assert '=' !in key;
    IndexOfAppend(key, tail, '=');
    assert key[2..] == name;
    SplitNegatedKey(sig, key + tail, key);
  }

  lemma SplitNegatedKey(sig: Signature, arg: string, key: string)
    requires IndexOf(arg, '=') == |key| && arg[..|key|] == key && HasNoPrefix(key)
    requires FindFlag(sig, key).None? && FindFlag(sig, key[2..]).Some?
    requires sig[FindFlag(sig, key[2..]).value] == Values.FvBool
    ensures SplitArgument(sig, arg) ==
            Resolved(key[2..], FindFlag(sig, key[2..]).value, Some("0"))
  {
  }

  // ----- Comma-separated lists -----

  function AfterComma(text: string): string {
    var i := IndexOf(text, ',');
    if i == |text| then "" else text[i + 1..]
  }

  /** The pieces of a list text; a trailing comma ends the list and adds no piece. */
  function ListPieces(text: string): seq<string>
    decreases |text|
  {
    if text == "" then [] else [text[..IndexOf(text, ',')]] + ListPieces(AfterComma(text))
  }

  /** An empty piece or one that starts with '-' ends the program. */
  predicate GoodPiece(piece: string) {
    piece != "" && piece[0] != '-'
  }

  predicate GoodPieces(pieces: seq<string>) {
    forall i | 0 <= i < |pieces| :: GoodPiece(pieces[i])
  }

  /** ParseFlagList on the C string of `text`; None when the program is ended. */
  function FlagList(text: string): Option<seq<string>> {
    var pieces := ListPieces(CStr(text));
    if GoodPieces(pieces) then Some(pieces) else None
  }

  /** ParseFlagList itself: `value` is the text from the moving start pointer on. */
  method ParseFlagList(text: string) returns (r: Option<seq<string>>)
    ensures r == FlagList(text)
  {
    var value := CStr(text);
    ghost var pieces := ListPieces(value);
    var flags: seq<string> := [];
    while value != ""
      invariant flags + ListPieces(value) == pieces
      invariant GoodPieces(flags)
      decreases |value|
    {
      var len := IndexOf(value, ',');
      var piece := value[..len];
      assert pieces[|flags|] == piece;
      if len == 0 || value[0] == '-' {
        assert !GoodPiece(piece);
        return None;
      }
      assert flags + ([piece] + ListPieces(AfterComma(value))) == (flags + [piece]) + ListPieces(AfterComma(value));
      flags := flags + [piece];
      value := AfterComma(value);
    }
    assert flags + [] == flags == pieces;
    return Some(flags);
  }

  /** The text of a list: its pieces, separated by commas. */
  function JoinList(pieces: seq<string>): string {
    if pieces == [] then "" else if |pieces| == 1 then pieces[0]
    else pieces[0] + "," + JoinList(pieces[1..])
  }

  /** Any list of usable names survives being written as text; no two lists share a text. */
  lemma {:induction false} FlagListRoundTrip(pieces: seq<string>)
    requires GoodPieces(pieces)
    requires forall i | 0 <= i < |pieces| :: ',' !in pieces[i] && NUL !in pieces[i]
    ensures NUL !in JoinList(pieces) && FlagList(JoinList(pieces)) == Some(pieces)
  {
    if pieces == [] {
    } else {
      var first, rest := pieces[0], pieces[1..];
      FlagListRoundTrip(rest);
      var text := JoinList(pieces);
      var tail := if rest == [] then "" else "," + JoinList(rest);
      IndexOfAppend(first, tail, ',');
      assert text == first + tail;
      assert AfterComma(text) == JoinList(rest) by {
        if rest != [] { assert text[|first|..][1..] == text[|first| + 1..]; }
      }
      assert pieces == [first] + rest;
    }
  }

  /** A name means the flag of that name, or else the flag named with underscores where it has dashes. */
  lemma FindsExactly(sig: Signature, name: string, flag: string)
    ensures FindFlag(sig, name) == Some(flag) <==>
      && flag in sig
      && (|| flag == name
          || (&& name !in sig && '-' in name && |flag| == |name|
              && forall i | 0 <= i < |name| :: flag[i] == if name[i] == '-' then '_' else name[i]))
  {
    if |flag| == |name| && forall i | 0 <= i < |name| :: flag[i] == if name[i] == '-' then '_' else name[i] {
      assert flag == Underscored(name);
    }
  }

  /** --name alone: a boolean flag is switched on, any other still wants its value. */
  lemma SplitBare(sig: Signature, name: string)
    requires '=' !in name && FindFlag(sig, name).Some?
    ensures SplitArgument(sig, name) ==
      var flag := FindFlag(sig, name).value;
      Resolved(name, flag, if sig[flag] == Values.FvBool then Some("1") else None)
  {
    IndexOfAppend(name, "", '=');
    assert name + "" == name;
  }

  /** A name that no flag has is unknown, with or without a value; so is its negation, unless a flag that is
      not boolean is negated. */
  lemma SplitRefused(sig: Signature, name: string, tail: string)
    requires '=' !in name && (tail == "" || tail[0] == '=') && FindFlag(sig, name).None?
    ensures SplitArgument(sig, name + tail) ==
      if name[..if |name| < 2 then 0 else 2] != "no" then Unresolved(name, Flags.UnknownFlag)
      else
        match FindFlag(sig, name[2..])
        case None => Unresolved(name, Flags.UnknownFlag)
        case Some(flag) =>
          if sig[flag] == Values.FvBool then Resolved(name[2..], flag, Some("0"))
          else Unresolved(name, Flags.BoolForNonBool(sig[flag]))
  {
    IndexOfAppend(name, tail, '=');
    hide FindFlag, IndexOf;
  }

  /** A list with an empty piece, except behind the last comma, or with a piece that begins with a dash ends
      the program. */
  lemma {:induction false} ListRefused(pieces: seq<string>, i: nat)
    requires i < |pieces| && forall k | 0 <= k < |pieces| :: ',' !in pieces[k] && NUL !in pieces[k]
    requires (pieces[i] == "" && i < |pieces| - 1) || (pieces[i] != "" && pieces[i][0] == '-')
    ensures NUL !in JoinList(pieces) && FlagList(JoinList(pieces)) == None
  {
    BadPieceAt(pieces, i);
    JoinNoNul(pieces);
  }

  /** One comma behind a list changes nothing. */
  lemma {:induction false} TrailingComma(pieces: seq<string>)
    requires pieces != [] && GoodPieces(pieces)
    requires forall i | 0 <= i < |pieces| :: ',' !in pieces[i] && NUL !in pieces[i]
    ensures FlagList(JoinList(pieces) + ",") == Some(pieces)
  {
    var longer := pieces + [""];
    JoinNoNul(longer);
    JoinEmpty(pieces);
    TrailingPieces(pieces);
  }

  lemma {:induction false} JoinEmpty(pieces: seq<string>)
    requires pieces != []
    ensures JoinList(pieces + [""]) == JoinList(pieces) + ","
  {
    var longer := pieces + [""];
    assert longer[0] == pieces[0] && longer[1..] == pieces[1..] + [""];
    if |pieces| > 1 { JoinEmpty(pieces[1..]); }
  }

  lemma {:induction false} TrailingPieces(pieces: seq<string>)
    requires forall i | 0 <= i < |pieces| :: ',' !in pieces[i]
    ensures ListPieces(JoinList(pieces + [""])) == pieces
  {
    var longer := pieces + [""];
    if pieces == [] {
      assert longer == [""];
    } else {
      assert longer[0] == pieces[0] && longer[1..] == pieces[1..] + [""];
      hide JoinList, ListPieces, AfterComma;
      NotEmpty(longer, 0);
      FirstPiece(longer);
      TrailingPieces(pieces[1..]);
    }
  }

  lemma {:induction false} JoinNoNul(pieces: seq<string>)
    requires forall k | 0 <= k < |pieces| :: NUL !in pieces[k]
    ensures NUL !in JoinList(pieces)
  {
    if |pieces| > 1 { JoinNoNul(pieces[1..]); }
  }

  lemma FirstPiece(pieces: seq<string>)
    requires pieces != [] && ',' !in pieces[0] && JoinList(pieces) != ""
    ensures var text := JoinList(pieces);
            && ListPieces(text) == [pieces[0]] + ListPieces(AfterComma(text))
            && AfterComma(text) == JoinList(pieces[1..])
  {
    var first, rest, text := pieces[0], pieces[1..], JoinList(pieces);
    var tail := if rest == [] then "" else "," + JoinList(rest);
    IndexOfAppend(first, tail, ',');
    assert text == first + tail;
    if rest != [] { assert text[|first|..][1..] == text[|first| + 1..]; }
  }

  lemma NotEmpty(pieces: seq<string>, i: nat)
    requires i < |pieces| && (pieces[i] != "" || i < |pieces| - 1)
    ensures JoinList(pieces) != ""
  {
    if |pieces| > 1 { assert JoinList(pieces) == pieces[0] + "," + JoinList(pieces[1..]); }
  }

  lemma {:induction false} BadPieceAt(pieces: seq<string>, i: nat)
    requires i < |pieces| && forall k | 0 <= k < |pieces| :: ',' !in pieces[k]
    requires (pieces[i] == "" && i < |pieces| - 1) || (pieces[i] != "" && pieces[i][0] == '-')
    ensures !GoodPieces(ListPieces(JoinList(pieces)))
  {
    hide JoinList, ListPieces, AfterComma;
    NotEmpty(pieces, i);
    FirstPiece(pieces);
    var all := ListPieces(JoinList(pieces));
    if i == 0 {
      assert !GoodPiece(all[0]);
    } else {
      BadPieceAt(pieces[1..], i - 1);
      var k :| 0 <= k < |all| - 1 && !GoodPiece(all[1..][k]);
      assert all[k + 1] == all[1..][k];
    }
  }
}
