/** The two regular expressions of the resolver, as the ECMAScript matcher
    runs them on a string.

    Line 39, `/^!(\S+)(?:\s+(.*))?$/i`: a `!` at the start, a greedy run of
    non-white-space characters (capture 1), then optionally a greedy run of
    white space and the rest of the string (capture 2), and the end of the
    input. `.` does not match a line terminator, and without the `m` flag
    `$` only matches at the very end, so a remainder holding a line
    terminator makes the whole match fail.

    Line 56, `^!\S+\s*` with the `i` flag: the same `!` and trigger, then any white space;
    `replace` removes the first (the only possible) match.

    The `i` flag changes nothing here: `!`, `\s`, `\S` and `.` are closed
    under case folding. */
module BangPattern {
  import opened Wrappers
  import opened JsString

  /** The captures of a successful match: capture 1 and, when the optional
      group took part, capture 2. */
  datatype BangMatch = BangMatch(trigger: string, rest: Option<string>)

  /** The length of the greedy `\S+`/`\S*` run at the head of `s`. */
  function NonWhitespaceRun(s: string): (n: nat)
    ensures n <= |s| && NoWhitespace(s[..n])
    ensures n < |s| ==> IsWhitespace(s[n])
  {
    if s == [] || IsWhitespace(s[0]) then 0 else 1 + NonWhitespaceRun(s[1..])
  }

  /** What the pattern does after capture 1 has taken `trigger`, with `tail`
      the unread input. */
  function MatchTail(trigger: string, tail: string): Option<BangMatch>
  {
    if tail == [] then Some(BangMatch(trigger, None))
    else
      var r := tail[LeadingWhitespace(tail)..];
      if NoLineTerminator(r) then Some(BangMatch(trigger, Some(r))) else None
  }

  /** `s.match(/^!(\S+)(?:\s+(.*))?$/i)`. */
  function Match(s: string): Option<BangMatch>
  {
    if s == [] || s[0] != '!' then None
    else
      var n := NonWhitespaceRun(s[1..]);
      if n == 0 then None else MatchTail(s[1..1 + n], s[1 + n..])
  }

  /** `s.replace(...)` of line 56: the leading `!`, trigger and white
      space removed. */
  function StripBang(s: string): string
  {
    if s == [] || s[0] != '!' then s
    else
      var n := NonWhitespaceRun(s[1..]);
      if n == 0 then s
      else
        var tail := s[1 + n..];
        tail[LeadingWhitespace(tail)..]
  }

  // ------------------------------------------------ the pattern, declared

  /** One way the pattern of line 39 can match `s`: capture 1 is
      `s[1..1 + n]` and, when `group` holds, the white space runs from
      `1 + n` to `k` and capture 2 is `s[k..]`. */
  ghost predicate Parse(s: string, n: nat, k: nat, group: bool)
  {
    1 + n <= |s| && s[0] == '!' && n >= 1 && NoWhitespace(s[1..1 + n])
    && if group then 1 + n < k <= |s| && AllWhitespace(s[1 + n..k]) && NoLineTerminator(s[k..])
       else |s| == 1 + n
  }

  lemma NonWhitespaceRunIsLongest(s: string, m: nat)
    requires m <= |s| && forall i :: 0 <= i < m ==> !IsWhitespace(s[i])
    ensures m <= NonWhitespaceRun(s)
  {
  }

  lemma LeadingWhitespaceIsLongest(s: string, m: nat)
    requires m <= |s| && forall i :: 0 <= i < m ==> IsWhitespace(s[i])
    ensures m <= LeadingWhitespace(s)
  {
  }

  /** What `Match` returns is a parse of `s`. */
  lemma MatchSound(s: string)
    requires Match(s).Some?
    ensures var m := Match(s).value;
      m.rest.None? ==> Parse(s, |m.trigger|, 1 + |m.trigger|, false) && s == "!" + m.trigger
    ensures var m := Match(s).value;
      m.rest.Some? ==>
        (Parse(s, |m.trigger|, |s| - |m.rest.value|, true)
         && m.trigger == s[1..1 + |m.trigger|] && m.rest.value == s[|s| - |m.rest.value|..])
  {
    var n := NonWhitespaceRun(s[1..]);
    assert s[1..][..n] == s[1..1 + n];
    var tail := s[1 + n..];
    if tail == [] {
      assert s == "!" + s[1..1 + n];
    } else {
      var w := LeadingWhitespace(tail);
      assert s[1 + n..1 + n + w] == tail[..w];
      assert s[1 + n + w..] == tail[w..];
      assert w >= 1 by {
        assert s[1..][n] == tail[0];
      }
    }
  }

  /** Any parse of `s` makes `Match` succeed, with the same capture 1 (the
      run of non-white-space is forced) and, when the parse uses the
      optional group, a capture 2 no longer than the parse's: the greedy
      `\s+` takes all the white space it can. Together with `MatchSound`,
      `Match(s)` is `None` exactly when no parse exists, and otherwise
      returns the parse the backtracking matcher reaches first. */
  lemma MatchComplete(s: string, n: nat, k: nat, group: bool)
    requires Parse(s, n, k, group)
    ensures Match(s).Some?
    ensures Match(s).value.trigger == s[1..1 + n]
    ensures group ==> Match(s).value.rest.Some? && |Match(s).value.rest.value| <= |s| - k
    ensures !group ==> Match(s).value.rest.None?
  {
    var t := s[1..1 + n];
    var tail := s[1 + n..];
    assert s == "!" + t + tail;
    if group {
      assert tail[0] == s[1 + n..k][0];
    }
    SplitAtTrigger(t, tail);
    if group {
      MatchCompleteTail(s, n, k, tail);
    }
  }

  lemma MatchCompleteTail(s: string, n: nat, k: nat, tail: string)
    requires Parse(s, n, k, true) && tail == s[1 + n..]
    ensures var w := LeadingWhitespace(tail);
      k - 1 - n <= w && NoLineTerminator(tail[w..])
  {
    assert tail[..k - 1 - n] == s[1 + n..k];
    LeadingWhitespaceIsLongest(tail, k - 1 - n);
    var w := LeadingWhitespace(tail);
    forall i | 0 <= i < |tail[w..]| ensures !IsLineTerminator(tail[w..][i]) {
      assert tail[w..][i] == s[k..][w - (k - 1 - n) + i];
    }
  }

  /** An input of the form `!` trigger white-space remainder does not match
      when the remainder holds a line terminator: the query then counts as
      having no bang at all. */
  lemma LineTerminatorDefeatsMatch(t: string, w: string, r: string)
    requires t != [] && NoWhitespace(t)
    requires w != [] && AllWhitespace(w)
    requires r == [] || !IsWhitespace(r[0])
    requires !NoLineTerminator(r)
    ensures Match("!" + t + w + r).None?
  {
    assert "!" + t + w + r == "!" + t + (w + r);
    assert (w + r)[0] == w[0];
    SplitAtTrigger(t, w + r);
    LeadingWhitespaceOfBreak(w, r);
    assert (w + r)[|w|..] == r;
  }

  lemma LeadingWhitespaceOfBreak(w: string, r: string)
    requires AllWhitespace(w)
    requires r == [] || !IsWhitespace(r[0])
    ensures LeadingWhitespace(w + r) == |w|
  {
    assert (w + r)[..|w|] == w;
    LeadingWhitespaceIsLongest(w + r, |w|);
    if r != [] {
      assert (w + r)[|w|] == r[0];
    }
  }

  // ---------------------------------------------- the two rules together

  lemma NonWhitespaceRunOfBreak(t: string, tail: string)
    requires NoWhitespace(t)
    requires tail == [] || IsWhitespace(tail[0])
    ensures NonWhitespaceRun(t + tail) == |t|
  {
    assert (t + tail)[..|t|] == t;
    NonWhitespaceRunIsLongest(t + tail, |t|);
    if tail != [] {
      assert (t + tail)[|t|] == tail[0];
    }
  }

  /** For `!` followed by a non-white-space trigger and a tail that is
      empty or starts with white space, both patterns take exactly that
      trigger, and what follows depends on the tail alone. */
  lemma SplitAtTrigger(t: string, tail: string)
    requires t != [] && NoWhitespace(t)
    requires tail == [] || IsWhitespace(tail[0])
    ensures Match("!" + t + tail) == MatchTail(t, tail)
    ensures StripBang("!" + t + tail) == tail[LeadingWhitespace(tail)..]
  {
    var s := "!" + t + tail;
    assert s[1..] == t + tail;
    NonWhitespaceRunOfBreak(t, tail);
    assert s[1..1 + |t|] == t;
    assert s[1 + |t|..] == tail;
  }

  /** Where line 39 matches, the stripping rule of line 56 leaves exactly
      capture 2, or the empty string when the group did not take part, so
      the known-trigger and unknown-trigger paths agree on the remainder. */
  lemma StripAgreesWithCapture(s: string)
    requires Match(s).Some?
    ensures StripBang(s) == Match(s).value.rest.GetOr("")
    ensures Trim(StripBang(s)) == Trim(Match(s).value.rest.GetOr(""))
  {
  }

  /** Capture 2 never starts with white space. */
  lemma CaptureStartsClean(s: string)
    requires Match(s).Some? && Match(s).value.rest.Some?
    ensures var r := Match(s).value.rest.value; r == [] || !IsWhitespace(r[0])
  {
  }
}
