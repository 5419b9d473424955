/** XMLText of gflags_reporting.cc: two in-place replacement passes over a string. */
module Xml {
  import opened Text

  const AMP := "&amp;"
  const LT := "&lt;"

  /** What the escape of one character is. */
  function EscapeChar(c: char): string {
    if c == '&' then AMP else if c == '<' then LT else [c]
  }

  function Escape(s: string): string {
    if s == "" then "" else EscapeChar(s[0]) + Escape(s[1..])
  }

  /** One pass: every `c` becomes `sub`. */
  function Replaced(s: string, c: char, sub: string): string {
    if s == "" then "" else (if s[0] == c then sub else [s[0]]) + Replaced(s[1..], c, sub)
  }

  lemma {:induction false} ReplacedConcat(a: string, b: string, c: char, sub: string)
    ensures Replaced(a + b, c, sub) == Replaced(a, c, sub) + Replaced(b, c, sub)
  {
    if a == "" {
      assert a + b == b;
    } else {
      assert (a + b)[0] == a[0] && (a + b)[1..] == a[1..] + b;
      ReplacedConcat(a[1..], b, c, sub);
    }
  }

  lemma {:induction false} ReplacedNone(s: string, c: char, sub: string)
    requires c !in s
    ensures Replaced(s, c, sub) == s
  {
    if s != "" { ReplacedNone(s[1..], c, sub); }
  }

  /** `for (pos = 0; (pos = ans.find(c, pos)) != npos; ) ans.replace(pos++, 1, sub);`
      The replacement starts with '&' and `pos` moves just one character, so the rest of the
      replacement is searched again: it must not contain `c`. */
  method ReplaceAll(txt: string, c: char, sub: string) returns (ans: string)
    requires sub != "" && c !in sub[1..]
    ensures ans == Replaced(txt, c, sub)
  {
    ans := txt;
    var pos := 0;
    ghost var todo := txt;   // the part of txt not looked at yet
    ghost var again := "";   // the part of the last replacement not looked at yet
    hide Replaced;
    while true
      invariant 0 <= pos <= |ans|
      invariant ans[pos..] == again + todo && c !in again
      invariant ans[..pos] + again + Replaced(todo, c, sub) == Replaced(txt, c, sub)
      decreases |todo|
    {
      var k := IndexOf(ans[pos..], c);
      if k == |ans[pos..]| {
        ReplaceEnd(ans, pos, again, todo, c, sub);
        return;
      }
      ReplaceTurn(ans, pos, again, todo, c, sub, k);
      again, todo := sub[1..], todo[k - |again| + 1..];
      ans := ans[..pos + k] + sub + ans[pos + k + 1..];
      pos := pos + k + 1;
    }
  }

  lemma ReplaceEnd(ans: string, pos: nat, again: string, todo: string, c: char, sub: string)
    requires pos <= |ans| && ans[pos..] == again + todo && c !in ans[pos..]
    ensures ans == ans[..pos] + again + Replaced(todo, c, sub)
  {
    assert forall i | 0 <= i < |todo| :: todo[i] == ans[pos..][|again| + i];
    ReplacedNone(todo, c, sub);
    assert ans == ans[..pos] + ans[pos..];
    assert ans[..pos] + again + todo == ans[..pos] + (again + todo);
  }

  /** One replacement: what is finished, followed by the replaced rest, stays the same. */
  lemma ReplaceTurn(ans: string, pos: nat, again: string, todo: string, c: char, sub: string, k: nat)
    requires pos <= |ans| && ans[pos..] == again + todo && c !in again && sub != ""
    requires k < |ans[pos..]| && IndexOf(ans[pos..], c) == k
    ensures |again| <= k
    ensures var next := ans[..pos + k] + sub + ans[pos + k + 1..];
            var after := todo[k - |again| + 1..];
            && next[pos + k + 1..] == sub[1..] + after
            && next[..pos + k + 1] + sub[1..] + Replaced(after, c, sub) ==
               ans[..pos] + again + Replaced(todo, c, sub)
  {
    FindAfter(again, todo, c, k);
    var before, after := todo[..k - |again|], todo[k - |again| + 1..];
    ReplacedAt(todo, c, sub, k - |again|);
    hide Replaced, IndexOf;
    HitSplits(ans, pos, again, todo, k);
    ReplaceStep(ans[..pos], again, before, sub, after, Replaced(after, c, sub),
                ans[..pos + k] + sub + ans[pos + k + 1..], pos + k);
  }

  lemma ReplacedAt(todo: string, c: char, sub: string, k: nat)
    requires k < |todo| && todo[k] == c && c !in todo[..k]
    ensures Replaced(todo, c, sub) == todo[..k] + (sub + Replaced(todo[k + 1..], c, sub))
  {
    var after := todo[k + 1..];
    assert todo == todo[..k] + ([c] + after);
    ReplacedConcat(todo[..k], [c] + after, c, sub);
    ReplacedNone(todo[..k], c, sub);
    assert ([c] + after)[1..] == after;
  }

  /** The text around the hit at offset `k` behind `pos`. */
  lemma HitSplits(ans: string, pos: nat, again: string, todo: string, k: nat)
    requires pos <= |ans| && ans[pos..] == again + todo && |again| <= k < |again + todo|
    ensures ans[..pos + k] == ans[..pos] + (again + todo[..k - |again|])
    ensures ans[pos + k + 1..] == todo[k - |again| + 1..]
  {
    assert ans[pos + k + 1..] == ans[pos..][k + 1..];
    assert ans[pos..][..k] == again + todo[..k - |again|];
    assert ans[..pos + k] == ans[..pos] + ans[pos..][..k];
  }

  /** The first hit lies behind what is being searched again. */
  lemma FindAfter(again: string, todo: string, c: char, k: nat)
    requires c !in again && k < |again + todo| && IndexOf(again + todo, c) == k
    ensures |again| <= k && c !in todo[..k - |again|] && todo[k - |again|] == c
  {
    var all := again + todo;
    assert all[k] == c;
    assert forall i | 0 <= i < k :: all[i] != c;
    assert forall i | 0 <= i < k - |again| :: todo[i] == all[|again| + i];
  }

  lemma ReplaceStep(
      done: string, again: string, before: string, sub: string, after: string, tail: string,
      ans: string, found: nat)
    requires sub != "" && ans == done + (again + before) + sub + after && found == |done + (again + before)|
    ensures ans[found + 1..] == sub[1..] + after
    ensures ans[..found + 1] + sub[1..] + tail == done + again + (before + (sub + tail))
  {
    var front := done + (again + before);
    assert ans[..found + 1] == front + [sub[0]];
    assert sub == [sub[0]] + sub[1..];
  }

  /** XMLText */
  method XMLText(txt: string) returns (ans: string)
    ensures ans == Escape(txt)
  {
    ans := ReplaceAll(txt, '&', AMP);
    ans := ReplaceAll(ans, '<', LT);
    TwoPasses(txt);
  }

  /** The passes in this order escape each character once: the second one leaves every '&' that the
      first one wrote alone, and writes its own without a further pass over it. */
  lemma {:induction false} TwoPasses(s: string)
    ensures Replaced(Replaced(s, '&', AMP), '<', LT) == Escape(s)
  {
    if s != "" {
      var head := if s[0] == '&' then AMP else [s[0]];
      ReplacedConcat(head, Replaced(s[1..], '&', AMP), '<', LT);
      TwoPasses(s[1..]);
      if s[0] == '<' {
        assert Replaced("", '<', LT) == "" && head[1..] == "";
      } else {
        ReplacedNone(head, '<', LT);
      }
    }
  }

  /** The other order would escape the entities of the first pass again. */
  lemma WrongOrder()
    ensures Replaced(Replaced("<", '<', LT), '&', AMP) != Escape("<")
  {
    assert "<"[1..] == "" && Replaced("<", '<', LT) == LT;
    assert LT[1..] == "lt;";
    ReplacedNone("lt;", '&', AMP);
    assert Replaced(LT, '&', AMP) == AMP + "lt;";
    assert Escape("<") == LT + "";
  }

  // ----- Decoding, section 2.4 of XML 1.0 -----

  /** Reads the two entities back; None for a bare '<' or a '&' that starts neither entity. */
  function Unescape(s: string): Option<string>
    decreases |s|
  {
    if s == "" then Some("")
    else if s[0] == '<' then None
    else if s[0] == '&' then
      if "&amp;" <= s then Prefixed('&', Unescape(s[5..]))
      else if "&lt;" <= s then Prefixed('<', Unescape(s[4..]))
      else None
    else Prefixed(s[0], Unescape(s[1..]))
  }

  function Prefixed(c: char, r: Option<string>): Option<string> {
    match r case None => None case Some(s) => Some([c] + s)
  }

  /** Every escaped text is well formed, and decoding gives the original back. */
  lemma {:induction false} UnescapeEscape(s: string)
    ensures Unescape(Escape(s)) == Some(s)
  {
    if s != "" {
      UnescapeEscape(s[1..]);
      var e, tail := EscapeChar(s[0]), Escape(s[1..]);
      assert Escape(s) == e + tail && (e + tail)[|e|..] == tail;
      assert s == [s[0]] + s[1..];
      assert (e + tail)[0] == e[0];
      assert e <= e + tail;
      if s[0] == '<' { assert (e + tail)[1] == 'l'; }
    }
  }

  /** Conversely, what can be decoded at all is the escape of what it decodes to. */
  lemma {:induction false} EscapeUnescape(s: string)
    requires Unescape(s).Some?
    ensures Escape(Unescape(s).value) == s
    decreases |s|
  {
    if s != "" {
      var n := if AMP <= s then |AMP| else if LT <= s then |LT| else 1;
      assert s == s[..n] + s[n..];
      assert AMP <= s ==> s[..n] == AMP;
      assert n == |LT| ==> s[..n] == LT;
      EscapeUnescape(s[n..]);
      var r := Unescape(s).value;
      assert r[1..] == Unescape(s[n..]).value;
    }
  }

  lemma {:induction false} EscapeConcat(a: string, b: string)
    ensures Escape(a + b) == Escape(a) + Escape(b)
  {
    if a == "" {
      assert a + b == b;
    } else {
      assert (a + b)[0] == a[0] && (a + b)[1..] == a[1..] + b;
      EscapeConcat(a[1..], b);
    }
  }

  /** The entities that '&' and '<' become, and every other character as it is, wherever they stand. */
  lemma EscapeAnywhere(a: string, c: char, b: string)
    ensures Escape(a + [c] + b) ==
      Escape(a) + (if c == '&' then "&amp;" else if c == '<' then "&lt;" else [c]) + Escape(b)
  {
    EscapeConcat(a + [c], b);
    EscapeConcat(a, [c]);
    EscapeOne(c);
    hide Escape;
  }

  lemma EscapeOne(c: char)
    ensures Escape([c]) == if c == '&' then "&amp;" else if c == '<' then "&lt;" else [c]
  {
    assert [c][1..] == "" && Escape([c]) == EscapeChar(c) + "";
  }
}
