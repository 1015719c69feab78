/** The bang resolver `getRedirectUrl` (app.ts lines 16-86): from one query
    and the bang table to a redirect URL or an error kind. */
module Resolver {
  import opened Wrappers
  import opened JsString
  import opened UriEncoding
  import opened BangPattern
  import opened Bangs

  /** Why no URL is produced; the resolver reports these with a
      diagnostic and returns `null`. */
  datatype Error =
    | EmptyQuery                        // line 22
    | MissingDomain(trigger: string)    // line 67
    | MissingTemplate(trigger: string)  // line 75, when there is no domain either

  /** The placeholder a URL template holds for the encoded query. */
  const Placeholder: string := "{{{s}}}"

  /** JavaScript truthiness of an optional string field: absent and `""`
      are both false. */
  predicate Truthy(o: Option<string>)
  {
    o.Some? && o.value != ""
  }

  function DomainUrl(d: string): string
  {
    "https://" + d
  }

  /** The state lines 28-60 leave behind: the selected bang, the effective
      query and whether a specific bang was matched. */
  datatype Selection = Selection(bang: Bang, query: string, bangUsed: bool)

  /** Lines 28-60, on the trimmed query `q`. */
  function Select(table: Table, q: string): Selection
    requires DefaultTrigger in table
  {
    match Match(q)
    case None => Selection(table[DefaultTrigger], q, false)
    case Some(m) =>
      var key := ToLower(m.trigger);
      if key in table then Selection(table[key], Trim(m.rest.GetOr("")), true)
      else Selection(table[DefaultTrigger], Trim(StripBang(q)), false)
  }

  /** Lines 63-70: a specific bang with nothing after it goes to its domain. */
  function DomainOnly(b: Bang): Result<string, Error>
  {
    if Truthy(b.d) then Success(DomainUrl(b.d.value)) else Failure(MissingDomain(b.t))
  }

  /** Lines 73-85: the template with the encoded query in place of its
      first placeholder, or the domain when there is no template. */
  function SearchUrl(b: Bang, q: string): Result<string, Error>
  {
    if !Truthy(b.u) then
      if Truthy(b.d) then Success(DomainUrl(b.d.value)) else Failure(MissingTemplate(b.t))
    else Success(ReplaceFirst(b.u.value, Placeholder, EncodeQuery(q)))
  }

  /** The resolver as a function of the query and the table; the table
      must hold the default bang (the start-up check of lines 10-14). */
  function Resolve(table: Table, query: string): Result<string, Error>
    requires DefaultTrigger in table
  {
    var q := Trim(query);
    if q == "" then Failure(EmptyQuery)
    else
      var sel := Select(table, q);
      if sel.bangUsed && sel.query == "" then DomainOnly(sel.bang)
      else SearchUrl(sel.bang, sel.query)
  }

  /** `getRedirectUrl`, step by step on the locals of the source. */
  method GetRedirectUrl(table: Table, query: string) returns (r: Result<string, Error>)
    requires DefaultTrigger in table
    ensures r == Resolve(table, query)
  {
    if Trim(query) == "" {
      return Failure(EmptyQuery);
    }
    var q := Trim(query);
    var selectedBang := table[DefaultTrigger];
    var cleanQuery := q;
    var bangUsed := false;
    var bangMatch := Match(q);
    if bangMatch.Some? {
      var candidate := ToLower(bangMatch.value.trigger);
      if candidate in table {
        selectedBang := table[candidate];
        cleanQuery := Trim(bangMatch.value.rest.GetOr(""));
        bangUsed := true;
      } else {
        selectedBang := table[DefaultTrigger];
        cleanQuery := Trim(StripBang(q));
      }
    }
    if bangUsed && cleanQuery == "" {
      if Truthy(selectedBang.d) {
        return Success(DomainUrl(selectedBang.d.value));
      } else {
        return Failure(MissingDomain(selectedBang.t));
      }
    }
    if !Truthy(selectedBang.u) {
      if Truthy(selectedBang.d) {
        return Success(DomainUrl(selectedBang.d.value));
      }
      return Failure(MissingTemplate(selectedBang.t));
    }
    var encodedQuery := EncodeQuery(cleanQuery);
    r := Success(ReplaceFirst(selectedBang.u.value, Placeholder, encodedQuery));
  }

  // ------------------------------------------------------------ properties

  /** An empty or all-white-space query, and only such a query, is refused
      with `EmptyQuery`. */
  lemma EmptyQueryRejected(table: Table, query: string)
    requires DefaultTrigger in table
    ensures Resolve(table, query) == Failure(EmptyQuery) <==> AllWhitespace(query)
  {
    var q := Trim(query);
    if q != "" {
      var sel := Select(table, q);
      assert DomainOnly(sel.bang).Failure? ==> DomainOnly(sel.bang).error.MissingDomain?;
      assert SearchUrl(sel.bang, sel.query).Failure? ==> SearchUrl(sel.bang, sel.query).error.MissingTemplate?;
    }
  }

  /** The URL-building step: the template with the encoded query in place
      of the first placeholder only, the text around it unchanged; a
      template without placeholder as it is; without a template, the
      domain, or `MissingTemplate` when there is none. */
  lemma SearchUrlSpec(b: Bang, q: string)
    ensures Truthy(b.u) && (forall j :: 0 <= j <= |b.u.value| ==> !OccursAt(b.u.value, Placeholder, j))
            ==> SearchUrl(b, q) == Success(b.u.value)
    ensures Truthy(b.u) && IndexOf(b.u.value, Placeholder).Some? ==>
      var u := b.u.value;
      var i := IndexOf(u, Placeholder).value;
      OccursAt(u, Placeholder, i)
      && (forall j :: 0 <= j < i ==> !OccursAt(u, Placeholder, j))
      && SearchUrl(b, q) == Success(u[..i] + EncodeQuery(q) + u[i + |Placeholder|..])
    ensures !Truthy(b.u) ==>
      SearchUrl(b, q) == if Truthy(b.d) then Success(DomainUrl(b.d.value)) else Failure(MissingTemplate(b.t))
  {
    if Truthy(b.u) {
      EncodeQueryShape(q);
      ReplaceFirstLiteral(b.u.value, Placeholder, EncodeQuery(q));
    }
  }

  /** Without bang syntax the default bang searches for the whole trimmed
      query. */
  lemma NoBangUsesDefault(table: Table, query: string)
    requires DefaultTrigger in table
    requires !AllWhitespace(query) && Match(Trim(query)).None?
    ensures Resolve(table, query) == SearchUrl(table[DefaultTrigger], Trim(query))
  {
  }

  /** A trimmed query that does not start with `!` has no bang syntax. */
  lemma NoExclamationNoBang(query: string)
    requires Trim(query) != [] && Trim(query)[0] != '!'
    ensures Match(Trim(query)).None?
  {
  }

  /** A trimmed query has trimmed captures: the `.trim()` calls of lines 49
      and 56 change nothing, and capture 2, when present, is not empty. */
  lemma CaptureOfTrimmed(q: string)
    requires Trim(q) == q && Match(q).Some?
    ensures Trim(Match(q).value.rest.GetOr("")) == Match(q).value.rest.GetOr("")
    ensures Match(q).value.rest.Some? ==> Match(q).value.rest.value != ""
  {
    MatchSound(q);
    var m := Match(q).value;
    if m.rest.Some? {
      var r := m.rest.value;
      assert r == q[|q| - |r|..];
      CaptureStartsClean(q);
      assert r[|r| - 1] == q[|q| - 1];
      TrimTrimmed(r);
    }
  }

  /** A known trigger with nothing after it goes straight to its domain and
      fails when the bang has none, whatever its template. */
  lemma KnownBangAlone(table: Table, query: string, t: string)
    requires DefaultTrigger in table
    requires Trim(query) == "!" + t && t != [] && NoWhitespace(t)
    requires ToLower(t) in table
    ensures var b := table[ToLower(t)];
      Resolve(table, query) == if Truthy(b.d) then Success(DomainUrl(b.d.value)) else Failure(MissingDomain(b.t))
  {
    SplitAtTrigger(t, []);
    assert "!" + t + [] == "!" + t;
  }

  /** A known trigger followed by a query searches that bang for it. */
  lemma KnownBangWithQuery(table: Table, query: string)
    requires DefaultTrigger in table
    requires Match(Trim(query)).Some? && Match(Trim(query)).value.rest.Some?
    requires ToLower(Match(Trim(query)).value.trigger) in table
    ensures var m := Match(Trim(query)).value;
      Resolve(table, query) == SearchUrl(table[ToLower(m.trigger)], m.rest.value)
  {
    TrimIdempotent(query);
    CaptureOfTrimmed(Trim(query));
  }

  /** An unknown trigger is never an error on its own account: the default
      bang searches for what follows the trigger, and the two rules that
      compute that remainder agree. */
  lemma UnknownTriggerUsesDefault(table: Table, query: string)
    requires DefaultTrigger in table
    requires Match(Trim(query)).Some? && ToLower(Match(Trim(query)).value.trigger) !in table
    ensures var m := Match(Trim(query)).value;
      Resolve(table, query) == SearchUrl(table[DefaultTrigger], m.rest.GetOr(""))
  {
    var q := Trim(query);
    StripAgreesWithCapture(q);
    TrimIdempotent(query);
    CaptureOfTrimmed(q);
  }

  /** `!word` alone, with `word` unknown, is the default search for the
      empty string. */
  lemma UnknownTriggerAlone(table: Table, query: string, t: string)
    requires DefaultTrigger in table
    requires Trim(query) == "!" + t && t != [] && NoWhitespace(t)
    requires ToLower(t) !in table
    ensures Resolve(table, query) == SearchUrl(table[DefaultTrigger], "")
  {
    SplitAtTrigger(t, []);
    assert "!" + t + [] == "!" + t;
    UnknownTriggerUsesDefault(table, query);
  }

  /** When `!unknown rest` matches the bang pattern, `rest` is nonempty and
      `rest` itself has no bang syntax, `!unknown rest` resolves like `rest`
      on its own. */
  lemma UnknownTriggerIsSearchOfRest(table: Table, query: string)
    requires DefaultTrigger in table
    requires Match(Trim(query)).Some? && ToLower(Match(Trim(query)).value.trigger) !in table
    requires var r := Match(Trim(query)).value.rest.GetOr(""); r != "" && Match(r).None?
    ensures Resolve(table, query) == Resolve(table, Match(Trim(query)).value.rest.GetOr(""))
  {
    UnknownTriggerUsesDefault(table, query);
    TrimIdempotent(query);
    CaptureOfTrimmed(Trim(query));
  }

  /** The trigger is looked up lower-cased: `!GH rest` and `!gh rest`
      resolve alike, as long as the pattern matches both (a line break
      after the white space that follows the trigger makes the query a
      plain search for the whole text as typed). */
  lemma TriggerCaseInsensitive(table: Table, t1: string, t2: string, rest: string)
    requires DefaultTrigger in table
    requires NoWhitespace(t1) && ToLower(t1) == ToLower(t2)
    requires rest == [] || IsWhitespace(rest[0])
    requires NoLineTerminator(Trim(rest))
    ensures Resolve(table, "!" + t1 + rest) == Resolve(table, "!" + t2 + rest)
  {
    if t1 != [] {
      SameLowerNoWhitespace(t1, t2);
      BangFormTrims(t1, rest);
      BangFormTrims(t2, rest);
      TrimEndKeepsShape(rest);
      TrimStartOfTrimEnd(rest);
      SelectCaseInsensitive(table, t1, t2, TrimEnd(rest));
      SameSelection(table, "!" + t1 + rest, "!" + t2 + rest);
    } else {
      assert t2 == [];
    }
  }

  /** Two queries whose trims are nonempty and select alike resolve alike. */
  lemma SameSelection(table: Table, q1: string, q2: string)
    requires DefaultTrigger in table
    requires Trim(q1) != "" && Trim(q2) != ""
    requires Select(table, Trim(q1)) == Select(table, Trim(q2))
    ensures Resolve(table, q1) == Resolve(table, q2)
  {
  }

  lemma SameLowerNoWhitespace(t1: string, t2: string)
    requires NoWhitespace(t1) && ToLower(t1) == ToLower(t2)
    ensures NoWhitespace(t2)
  {
    forall i | 0 <= i < |t2| ensures !IsWhitespace(t2[i]) {
      assert LowerChar(t1[i]) == LowerChar(t2[i]);
    }
  }

  lemma TrimEndKeepsShape(rest: string)
    requires rest == [] || IsWhitespace(rest[0])
    ensures var r := TrimEnd(rest); r == [] || IsWhitespace(r[0])
  {
    var r := TrimEnd(rest);
    if r != [] { assert r[0] == rest[0]; }
  }

  /** Same as above, on a trimmed remainder `r`: only a line terminator
      after the white space that starts `r` stops the pattern. */
  lemma SelectCaseInsensitive(table: Table, t1: string, t2: string, r: string)
    requires DefaultTrigger in table
    requires t1 != [] && t2 != [] && NoWhitespace(t1) && NoWhitespace(t2) && ToLower(t1) == ToLower(t2)
    requires r == [] || IsWhitespace(r[0])
    requires NoLineTerminator(r[LeadingWhitespace(r)..])
    ensures Select(table, "!" + t1 + r) == Select(table, "!" + t2 + r)
  {
    SplitAtTrigger(t1, r);
    SplitAtTrigger(t2, r);
  }

  lemma BangFormTrims(t: string, rest: string)
    requires t != [] && NoWhitespace(t)
    ensures Trim("!" + t + rest) == "!" + t + TrimEnd(rest)
  {
    var s := "!" + t + rest;
    assert s == ("!" + t) + rest;
    assert LeadingWhitespace(s) == 0;
    assert s[0..] == s;
    TrimEndAppend("!" + t, rest);
  }

  /** A template that ends in its placeholder, with no `{` before it,
      yields its prefix followed by the encoded query. */
  lemma TrailingPlaceholder(prefix: string, e: string)
    requires '{' !in prefix && '$' !in e
    ensures ReplaceFirst(prefix + Placeholder, Placeholder, e) == prefix + e
  {
    var u := prefix + Placeholder;
    var i := |prefix|;
    assert u[i..i + |Placeholder|] == Placeholder;
    forall j | 0 <= j < i ensures u[j] != Placeholder[0] {
      assert u[j] == prefix[j];
    }
    IndexOfAt(u, Placeholder, i);
    ReplaceFirstLiteral(u, Placeholder, e);
    assert u[..i] == prefix;
    assert u[i + |Placeholder|..] == [];
  }

  /** A bang whose template ends in its placeholder searches at the
      template's prefix followed by the encoded query. */
  lemma TemplateSearch(b: Bang, prefix: string, q: string)
    requires b.u == Some(prefix + Placeholder) && '{' !in prefix
    ensures SearchUrl(b, q) == Success(prefix + EncodeQuery(q))
  {
    EncodeQueryShape(q);
    TrailingPlaceholder(prefix, EncodeQuery(q));
  }

  /** `!t rest`, with `rest` free of line breaks and of white space at its
      ends, is already trimmed and matches with captures `t` and `rest`. */
  lemma BangThenRest(t: string, rest: string)
    requires t != [] && NoWhitespace(t)
    requires rest != [] && !IsWhitespace(rest[0]) && !IsWhitespace(rest[|rest| - 1])
    requires NoLineTerminator(rest)
    ensures Trim("!" + t + " " + rest) == "!" + t + " " + rest
    ensures Match("!" + t + " " + rest) == Some(BangMatch(t, Some(rest)))
  {
    var q := "!" + t + (" " + rest);
    assert q == "!" + t + " " + rest;
    assert q[|q| - 1] == rest[|rest| - 1];
    TrimTrimmed(q);
    SplitAtTrigger(t, " " + rest);
    LeadingWhitespaceOfBreak(" ", rest);
    assert (" " + rest)[1..] == rest;
  }

  // ---------------------------------------------------- worked examples
  // Queries are written as concatenations of short literals, and each
  // fact gets a lemma of its own, so the solver does not unfold long
  // string literals character by character.

  const GoogleSearch: string := "https://www.google.com/search?q="
  const GithubSearch: string := "https://github.com/search?q="
  const Google: Bang := Bang("g", None, Some(GoogleSearch + Placeholder))
  const Github: Bang := Bang("gh", Some("github.com"), Some(GithubSearch + Placeholder))

  /** A table with the default bang `g` and the bang `gh`. */
  function ExampleTable(): (table: Table)
    ensures DefaultTrigger in table && table[DefaultTrigger] == Google
    ensures "gh" in table && table["gh"] == Github && "zz" !in table
  {
    map["g" := Google, "gh" := Github]
  }

  /** Plain text goes to the default bang, its space escaped. */
  lemma ExampleDefaultSearch()
    ensures Resolve(ExampleTable(), "hello" + " " + "world") == Success(GoogleSearch + "hello%20world")
  {
    DefaultSearchSelected();
    DefaultSearchUrl();
  }

  lemma DefaultSearchSelected()
    ensures Resolve(ExampleTable(), "hello" + " " + "world") == SearchUrl(Google, "hello" + " " + "world")
  {
    var q := "hello" + " " + "world";
    TrimTrimmed(q);
    NoExclamationNoBang(q);
    NoBangUsesDefault(ExampleTable(), q);
  }

  lemma DefaultSearchUrl()
    ensures SearchUrl(Google, "hello" + " " + "world") == Success(GoogleSearch + "hello%20world")
  {
    HelloWorldEncoded();
    TemplateSearch(Google, GoogleSearch, "hello" + " " + "world");
  }

  lemma HelloWorldEncoded()
    ensures EncodeQuery("hello" + " " + "world") == "hello%20world"
  {
    EncodeQuerySpaceJoined("hello", "world");
  }

  /** A known bang with a query searches its own template; `/` stays. */
  lemma ExampleBangSearch()
    ensures Resolve(ExampleTable(), "!" + "gh" + " " + "t3dotgg/unduck") == Success(GithubSearch + "t3dotgg/unduck")
  {
    BangSearchSelected();
    BangSearchUrl();
  }

  lemma BangSearchUrl()
    ensures SearchUrl(Github, "t3dotgg/unduck") == Success(GithubSearch + "t3dotgg/unduck")
  {
    PlainSearch(Github, GithubSearch, "t3dotgg/unduck");
  }

  lemma BangSearchSelected()
    ensures Resolve(ExampleTable(), "!" + "gh" + " " + "t3dotgg/unduck") == SearchUrl(Github, "t3dotgg/unduck")
  {
    BangThenRest("gh", "t3dotgg/unduck");
    assert ToLower("gh") == "gh";
    KnownBangWithQuery(ExampleTable(), "!" + "gh" + " " + "t3dotgg/unduck");
  }

  /** A template search for text that needs no escaping. */
  lemma PlainSearch(b: Bang, prefix: string, q: string)
    requires b.u == Some(prefix + Placeholder) && '{' !in prefix
    requires forall i :: 0 <= i < |q| ==> q[i] == '/' || IsUnreserved(q[i])
    ensures SearchUrl(b, q) == Success(prefix + q)
  {
    EncodeQueryPlain(q);
    TemplateSearch(b, prefix, q);
  }

  /** A known bang alone goes to its domain. */
  lemma ExampleBangAlone()
    ensures Resolve(ExampleTable(), "!" + "gh") == Success("https://" + "github.com")
  {
    TrimTrimmed("!" + "gh");
    assert ToLower("gh") == "gh";
    KnownBangAlone(ExampleTable(), "!" + "gh", "gh");
    assert Truthy(Github.d);
  }

  /** An unknown bang falls back to the default search for the rest. */
  lemma ExampleUnknownBang()
    ensures Resolve(ExampleTable(), "!" + "zz" + " " + "something") == Success(GoogleSearch + "something")
  {
    UnknownBangSelected();
    UnknownBangUrl();
  }

  lemma UnknownBangUrl()
    ensures SearchUrl(Google, "something") == Success(GoogleSearch + "something")
  {
    PlainSearch(Google, GoogleSearch, "something");
  }

  lemma UnknownBangSelected()
    ensures Resolve(ExampleTable(), "!" + "zz" + " " + "something") == SearchUrl(Google, "something")
  {
    BangThenRest("zz", "something");
    assert ToLower("zz") == "zz";
    UnknownTriggerUsesDefault(ExampleTable(), "!" + "zz" + " " + "something");
  }
}
