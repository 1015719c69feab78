/** The pieces of the ECMAScript string library the resolver uses: the
    white-space set shared by `String.prototype.trim` and the regular
    expression classes `\s` / `\S`, the line terminators that `.` refuses,
    `toLowerCase`, and `String.prototype.replace` with a string pattern
    (section 22.1.3 of ECMA-262, with GetSubstitution of section 22.1.3.19.1). */
module JsString {
  import opened Wrappers

  /** LineTerminator of ECMA-262 section 12.3: LF, CR, LS and PS. */
  predicate IsLineTerminator(c: char)
  {
    c == '\n' || c == '\r' || c == '\U{2028}' || c == '\U{2029}'
  }

  /** WhiteSpace (section 12.2: TAB, VT, FF, SP, NBSP, ZWNBSP and the Zs
      category) together with LineTerminator. `trim` strips exactly these,
      `\s` matches exactly these and `\S` matches everything else. */
  predicate IsWhitespace(c: char)
  {
    IsLineTerminator(c)
    || c == '\t' || c == '\U{000B}' || c == '\U{000C}' || c == ' '
    || c == '\U{00A0}' || c == '\U{FEFF}'
    || c == '\U{1680}' || ('\U{2000}' <= c <= '\U{200A}')
    || c == '\U{202F}' || c == '\U{205F}' || c == '\U{3000}'
  }

  predicate AllWhitespace(s: string)
  {
    forall i :: 0 <= i < |s| ==> IsWhitespace(s[i])
  }

  predicate NoWhitespace(s: string)
  {
    forall i :: 0 <= i < |s| ==> !IsWhitespace(s[i])
  }

  predicate NoLineTerminator(s: string)
  {
    forall i :: 0 <= i < |s| ==> !IsLineTerminator(s[i])
  }

  // ---------------------------------------------------------------- trim

  /** The number of white-space characters `s` starts with. */
  function LeadingWhitespace(s: string): (n: nat)
    ensures n <= |s| && AllWhitespace(s[..n])
    ensures n < |s| ==> !IsWhitespace(s[n])
  {
    if s != [] && IsWhitespace(s[0]) then 1 + LeadingWhitespace(s[1..]) else 0
  }

  /** Where the white space that `s` ends with begins. */
  function TrailingWhitespace(s: string): (n: nat)
    ensures n <= |s| && AllWhitespace(s[n..])
    ensures n > 0 ==> !IsWhitespace(s[n - 1])
  {
    if s != [] && IsWhitespace(s[|s| - 1]) then TrailingWhitespace(s[..|s| - 1]) else |s|
  }

  /** `s` without its leading white space. */
  function TrimStart(s: string): string
  {
    s[LeadingWhitespace(s)..]
  }

  /** `s` without its trailing white space. */
  function TrimEnd(s: string): string
  {
    s[..TrailingWhitespace(s)]
  }

  /** `String.prototype.trim`: the slice of `s` between its leading and its
      trailing white space. It is empty exactly when `s` is all white
      space; otherwise it starts and ends with a non-white-space character. */
  function Trim(s: string): (r: string)
    ensures |r| <= |s|
    ensures exists i :: 0 <= i <= |s| - |r| && s[i..i + |r|] == r
                        && AllWhitespace(s[..i]) && AllWhitespace(s[i + |r|..])
    ensures r == [] <==> AllWhitespace(s)
    ensures r != [] ==> !IsWhitespace(r[0]) && !IsWhitespace(r[|r| - 1])
  {
    TrimFacts(s);
    TrimEnd(TrimStart(s))
  }

  lemma TrimFacts(s: string)
    ensures var i := LeadingWhitespace(s); var r := TrimEnd(TrimStart(s));
      s[i..i + |r|] == r && AllWhitespace(s[i + |r|..])
      && (r == [] <==> AllWhitespace(s))
  {
    var i := LeadingWhitespace(s);
    var a := s[i..];
    var r := a[..TrailingWhitespace(a)];
    TrimSlices(s, i, a, r);
    if r == [] {
      TrimAllWhitespace(s, i, a);
    } else {
      assert r[0] == s[i];
    }
  }

  lemma TrimSlices(s: string, i: nat, a: string, r: string)
    requires i == LeadingWhitespace(s) && a == s[i..] && r == a[..TrailingWhitespace(a)]
    ensures s[i..i + |r|] == r && AllWhitespace(s[i + |r|..])
  {
    assert s[i + |r|..] == a[|r|..];
  }

  lemma TrimAllWhitespace(s: string, i: nat, a: string)
    requires i == LeadingWhitespace(s) && a == s[i..] && TrailingWhitespace(a) == 0
    ensures AllWhitespace(s)
  {
    assert a[0..] == a;
    AllWhitespaceAppend(s[..i], a);
    assert s[..i] + a == s;
  }

  lemma AllWhitespaceAppend(x: string, y: string)
    requires AllWhitespace(x) && AllWhitespace(y)
    ensures AllWhitespace(x + y)
  {
    forall k | 0 <= k < |x + y| ensures IsWhitespace((x + y)[k]) {
      if k < |x| { assert (x + y)[k] == x[k]; } else { assert (x + y)[k] == y[k - |x|]; }
    }
  }

  /** A string that neither starts nor ends with white space is its own trim. */
  lemma TrimTrimmed(s: string)
    requires s == [] || (!IsWhitespace(s[0]) && !IsWhitespace(s[|s| - 1]))
    ensures Trim(s) == s
  {
  }

  /** Trimming twice is trimming once. */
  lemma TrimIdempotent(s: string)
    ensures Trim(Trim(s)) == Trim(s)
  {
    TrimTrimmed(Trim(s));
  }

  /** Trailing white space is never looked for before the last
      non-white-space character of `a`. */
  lemma {:induction false} TrimEndAppend(a: string, b: string)
    requires a != [] && !IsWhitespace(a[|a| - 1])
    ensures TrimEnd(a + b) == a + TrimEnd(b)
    decreases |b|
  {
    if b == [] {
      assert a + b == a;
    } else if IsWhitespace(b[|b| - 1]) {
      assert (a + b)[..|a + b| - 1] == a + b[..|b| - 1];
      TrimEndAppend(a, b[..|b| - 1]);
    } else {
      assert (a + b)[|a + b| - 1] == b[|b| - 1];
    }
  }

  /** Cutting `s` after its leading white space leaves that white space
      in place. */
  lemma {:induction false} LeadingWhitespacePrefix(s: string, k: nat)
    requires LeadingWhitespace(s) <= k <= |s|
    ensures LeadingWhitespace(s[..k]) == LeadingWhitespace(s)
  {
    if s != [] && IsWhitespace(s[0]) {
      assert s[..k][0] == s[0];
      assert s[..k][1..] == s[1..][..k - 1];
      LeadingWhitespacePrefix(s[1..], k - 1);
    } else if k > 0 {
      assert s[..k][0] == s[0];
    }
  }

  /** Cutting `s` before its trailing white space leaves that white space
      in place. */
  lemma {:induction false} TrailingWhitespaceSuffix(s: string, w: nat)
    requires w <= TrailingWhitespace(s)
    ensures TrailingWhitespace(s[w..]) == TrailingWhitespace(s) - w
    decreases |s|
  {
    if s != [] && IsWhitespace(s[|s| - 1]) {
      var t := s[w..];
      assert t[|t| - 1] == s[|s| - 1];
      assert t[..|t| - 1] == s[..|s| - 1][w..];
      TrailingWhitespaceSuffix(s[..|s| - 1], w);
    } else if w < |s| {
      assert s[w..][|s| - w - 1] == s[|s| - 1];
    }
  }

  /** Trimming the end first and then the start is trimming. */
  lemma TrimStartOfTrimEnd(s: string)
    ensures TrimStart(TrimEnd(s)) == Trim(s)
  {
    var w, k := LeadingWhitespace(s), TrailingWhitespace(s);
    if w <= k {
      LeadingWhitespacePrefix(s, k);
      TrailingWhitespaceSuffix(s, w);
      assert s[..k][w..] == s[w..][..k - w];
    } else {
      assert k == 0;
      assert AllWhitespace(s) by {
        assert s[0..] == s;
      }
    }
  }

  // ---------------------------------------------------------- toLowerCase

  /** The lower-case mapping of one character, for the ASCII letters. */
  function LowerChar(c: char): (r: char)
    ensures !('A' <= r <= 'Z')
    ensures IsWhitespace(r) == IsWhitespace(c)
    ensures 'A' <= c <= 'Z' ==> r as int == c as int + 32
    ensures !('A' <= c <= 'Z') ==> r == c
  {
    if 'A' <= c <= 'Z' then (c as int + 32) as char else c
  }

  /** `String.prototype.toLowerCase`, character by character. */
  function ToLower(s: string): (r: string)
    ensures |r| == |s|
    ensures forall i :: 0 <= i < |s| ==> r[i] == LowerChar(s[i])
  {
    if s == [] then [] else [LowerChar(s[0])] + ToLower(s[1..])
  }

  /** Lowering twice is lowering once, and the result holds no upper-case
      ASCII letter. */
  lemma ToLowerIdempotent(s: string)
    ensures ToLower(ToLower(s)) == ToLower(s)
    ensures forall i :: 0 <= i < |s| ==> !('A' <= ToLower(s)[i] <= 'Z')
  {
    var r := ToLower(s);
    assert ToLower(r) == r by {
      forall i | 0 <= i < |r| ensures ToLower(r)[i] == r[i] {
      }
    }
  }

  // ----------------------------------------------- indexOf and replace

  /** `pat` occurs in `s` at index `i`. */
  predicate OccursAt(s: string, pat: string, i: nat)
  {
    i + |pat| <= |s| && s[i..i + |pat|] == pat
  }

  /** StringIndexOf(s, pat, from): the first index at or after `from` where
      `pat` occurs, or `None` when there is none. */
  function IndexOfFrom(s: string, pat: string, from: nat): (r: Option<nat>)
    requires from <= |s|
    ensures r.Some? ==> from <= r.value && OccursAt(s, pat, r.value)
    ensures r.Some? ==> forall j :: from <= j < r.value ==> !OccursAt(s, pat, j)
    ensures r.None? ==> forall j :: from <= j <= |s| ==> !OccursAt(s, pat, j)
    decreases |s| - from
  {
    if OccursAt(s, pat, from) then Some(from)
    else if from == |s| then None
    else IndexOfFrom(s, pat, from + 1)
  }

  /** `s.indexOf(pat)`, with `None` for -1. */
  function IndexOf(s: string, pat: string): (r: Option<nat>)
    ensures r.Some? ==> OccursAt(s, pat, r.value)
    ensures r.Some? ==> forall j :: 0 <= j < r.value ==> !OccursAt(s, pat, j)
    ensures r.None? ==> forall j :: 0 <= j <= |s| ==> !OccursAt(s, pat, j)
  {
    IndexOfFrom(s, pat, 0)
  }

  /** When no character before `i` can start `pat`, an occurrence at `i`
      is the first one. */
  lemma IndexOfAt(s: string, pat: string, i: nat)
    requires pat != [] && OccursAt(s, pat, i)
    requires forall j :: 0 <= j < i ==> s[j] != pat[0]
    ensures IndexOf(s, pat) == Some(i)
  {
    match IndexOf(s, pat)
    case None =>
    case Some(v) =>
      assert s[v..v + |pat|][0] == s[v];
  }

  /** GetSubstitution for a string pattern (no capture groups): `$$` gives
      `$`, `$&` the matched text, `` $` `` the text before the match and
      `$'` the text after it; every other character, `$` followed by
      anything else included, stands for itself. */
  function Expand(repl: string, matched: string, before: string, after: string): string
    decreases |repl|
  {
    if |repl| >= 2 && repl[0] == '$' && repl[1] == '$' then
      "$" + Expand(repl[2..], matched, before, after)
    else if |repl| >= 2 && repl[0] == '$' && repl[1] == '&' then
      matched + Expand(repl[2..], matched, before, after)
    else if |repl| >= 2 && repl[0] == '$' && repl[1] == '`' then
      before + Expand(repl[2..], matched, before, after)
    else if |repl| >= 2 && repl[0] == '$' && repl[1] == '\'' then
      after + Expand(repl[2..], matched, before, after)
    else if repl == [] then []
    else [repl[0]] + Expand(repl[1..], matched, before, after)
  }

  /** A replacement text without `$` is inserted literally. */
  lemma {:induction false} ExpandLiteral(repl: string, matched: string, before: string, after: string)
    requires '$' !in repl
    ensures Expand(repl, matched, before, after) == repl
    decreases |repl|
  {
    if repl != [] {
      ExpandLiteral(repl[1..], matched, before, after);
      assert repl == [repl[0]] + repl[1..];
    }
  }

  /** `s.replace(pat, repl)` with a string `pat`: only the first occurrence
      is replaced, by the GetSubstitution expansion of `repl`. */
  function ReplaceFirst(s: string, pat: string, repl: string): string
  {
    match IndexOf(s, pat)
    case None => s
    case Some(i) =>
      s[..i] + Expand(repl, pat, s[..i], s[i + |pat|..]) + s[i + |pat|..]
  }

  /** With a `$`-free replacement, `replace` cuts `s` at the first
      occurrence of `pat` and puts `repl` in its place, keeping the text
      before and after it unchanged; without an occurrence it returns `s`. */
  lemma ReplaceFirstLiteral(s: string, pat: string, repl: string)
    requires '$' !in repl
    ensures (forall j :: 0 <= j <= |s| ==> !OccursAt(s, pat, j)) ==> ReplaceFirst(s, pat, repl) == s
    ensures IndexOf(s, pat).Some? ==>
      var i := IndexOf(s, pat).value;
      OccursAt(s, pat, i)
      && (forall j :: 0 <= j < i ==> !OccursAt(s, pat, j))
      && ReplaceFirst(s, pat, repl) == s[..i] + repl + s[i + |pat|..]
  {
    match IndexOf(s, pat)
    case None =>
    case Some(i) =>
      ExpandLiteral(repl, pat, s[..i], s[i + |pat|..]);
  }
}
