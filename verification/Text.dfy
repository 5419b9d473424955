/** C strings and the few <cstring>/<cctype> operations the flag code relies on.
    A `char*` is modelled by the characters before its terminating NUL. */
module Text {

  datatype Option<+T> = None | Some(value: T)

  const NUL: char := 0 as char
  const CR: char := 13 as char
  const LF: char := 10 as char

  /** isspace() in the "C" locale. */
  predicate IsSpace(c: char) {
    c == ' ' || 9 <= c as int <= 13
  }

  predicate AllSpace(s: string) {
    forall i | 0 <= i < |s| :: IsSpace(s[i])
  }

  /** strchr() as an offset; |s| when the character does not occur. */
  function IndexOf(s: string, c: char): (i: nat)
    ensures i <= |s| && forall k | 0 <= k < i :: s[k] != c
    ensures i < |s| <==> c in s
    ensures i < |s| ==> s[i] == c
  {
    if s == [] then 0
    else if s[0] == c then 0
    else
      1 + IndexOf(s[1..], c)
  }

  lemma IndexOfAppend(a: string, b: string, c: char)
    requires c !in a && (b == "" || b[0] == c)
    ensures IndexOf(a + b, c) == |a| && (a + b)[..|a|] == a && (a + b)[|a|..] == b
  {
    assert forall k | 0 <= k < |a| :: (a + b)[k] == a[k] && a[k] in a;
    assert b != "" ==> (a + b)[|a|] == c;
  }

  /** The string seen through c_str(). */
  function CStr(s: string): (r: string)
    ensures NUL !in r && r <= s
    ensures NUL !in s ==> r == s
  {
    s[..IndexOf(s, NUL)]
  }

  /** It ends at the first NUL. */
  lemma CStrEnds(s: string)
    ensures |CStr(s)| < |s| ==> s[|CStr(s)|] == NUL
    ensures NUL in s ==> |CStr(s)| < |s|
  {
  }

  /** `while (isspace(*p)) ++p;` */
  function SkipSpace(s: string): (r: string)
    ensures |r| <= |s|
  {
    if s != [] && IsSpace(s[0]) then SkipSpace(s[1..]) else s
  }

  lemma {:induction false} SkipSpaceSuffix(s: string)
    ensures var r := SkipSpace(s);
            && r == s[|s| - |r|..]
            && (r == [] || !IsSpace(r[0]))
            && AllSpace(s[..|s| - |r|])
            && forall i | 0 <= i < |s| - |r| :: IsSpace(s[i])
  {
    if s != [] && IsSpace(s[0]) {
      SkipSpaceSuffix(s[1..]);
      var n := |s| - |SkipSpace(s)|;
      assert s[1..][..n - 1] == s[..n][1..];
      assert forall i | 0 < i < n :: s[..n][i] == s[1..][..n - 1][i - 1];
    }
  }

  lemma {:induction false} SkipSpacePrefix(a: string, b: string)
    requires AllSpace(a)
    ensures SkipSpace(a + b) == SkipSpace(b)
  {
    if a == [] {
      assert a + b == b;
    } else {
      assert (a + b)[1..] == a[1..] + b;
      SkipSpacePrefix(a[1..], b);
    }
  }

  /** Splits at every separator; empty pieces are kept, so there is always at least one piece. */
  function Split(s: string, sep: char): (ws: seq<string>)
    ensures |ws| >= 1
    decreases |s|
  {
    var i := IndexOf(s, sep);
    if i == |s| then [s] else [s[..i]] + Split(s[i + 1..], sep)
  }

  lemma SplitStep(s: string, sep: char)
    ensures var i := IndexOf(s, sep);
            Split(s, sep) == [s[..i]] + if i == |s| then [] else Split(s[i + 1..], sep)
  {
    assert s[..|s|] == s && [s] + [] == [s];
  }

  /** tolower() in the "C" locale. */
  function ToLower(c: char): char {
    if 'A' <= c <= 'Z' then (c as int + 32) as char else c
  }

  /** strcasecmp(a, b) == 0 */
  predicate EqualIgnoringCase(a: string, b: string) {
    |a| == |b| && forall i | 0 <= i < |a| :: ToLower(a[i]) == ToLower(b[i])
  }

  /** The white space that <cctype> knows: blank, tab, line feed, vertical tab, form feed and carriage
      return. */
  lemma SpaceCharacters(c: char)
    ensures IsSpace(c) <==> c == ' ' || c == '\t' || c == '\n' || c as int == 11 || c as int == 12 || c == '\r'
  {
  }

  const UPPER: string := "ABCDEFGHIJKLMNOPQRSTUVWXYZ"
  const LOWER: string := "abcdefghijklmnopqrstuvwxyz"

  /** Comparing without case maps the letters A to Z to a to z and nothing else. */
  lemma LowerTable(c: char)
    ensures forall i | 0 <= i < 26 :: ToLower(UPPER[i]) == LOWER[i]
    ensures c !in UPPER ==> ToLower(c) == c
  {
    if 'A' <= c <= 'Z' { assert UPPER[c as int - 'A' as int] == c; }
  }

  /** Pieces without the separator, joined by it. */
  function Join(ws: seq<string>, sep: char): string
    requires ws != []
  {
    if |ws| == 1 then ws[0] else ws[0] + [sep] + Join(ws[1..], sep)
  }

  lemma {:induction false} SplitJoin(ws: seq<string>, sep: char)
    requires ws != [] && forall i | 0 <= i < |ws| :: sep !in ws[i]
    ensures Split(Join(ws, sep), sep) == ws
  {
    var tail := if |ws| == 1 then "" else [sep] + Join(ws[1..], sep);
    var s := ws[0] + tail;
    assert s == Join(ws, sep);
    IndexOfAppend(ws[0], tail, sep);
    if |ws| > 1 {
      SplitJoin(ws[1..], sep);
      assert s[|ws[0]| + 1..] == s[|ws[0]|..][1..] == Join(ws[1..], sep);
    }
  }
}
