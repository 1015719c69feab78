/** The bang records and the lookup table built from them at start-up. */
module Bangs {
  import opened Wrappers
  import opened JsString

  /** One bang: trigger `t`, optional bare domain `d`, optional URL
      template `u` holding the placeholder `{{{s}}}`. The records carry
      further fields that the resolver never reads. */
  datatype Bang = Bang(t: string, d: Option<string>, u: Option<string>)

  type Table = map<string, Bang>

  /** The bang used when none is given or the given one is unknown. */
  const DefaultTrigger: string := "g"

  /** `bangs[i]` is the last record in `bangs` with its trigger. */
  predicate IsLastWithTrigger(bangs: seq<Bang>, i: nat)
    requires i < |bangs|
  {
    forall j :: i < j < |bangs| ==> bangs[j].t != bangs[i].t
  }

  /** `m` is the table of `bangs`: a key is present exactly when some
      record has it as its trigger; it maps to a record of `bangs` with that
      trigger; and for each trigger that record is the last one. */
  ghost predicate IsTableOf(bangs: seq<Bang>, m: Table)
  {
    (forall k :: k in m <==> exists i :: 0 <= i < |bangs| && bangs[i].t == k)
    && (forall k :: k in m ==> m[k].t == k && m[k] in bangs)
    && (forall i :: 0 <= i < |bangs| && IsLastWithTrigger(bangs, i) ==> m[bangs[i].t] == bangs[i])
  }

  /** `new Map(bangs.map(b => [b.t, b]))`: the records keyed by their
      trigger as written (not lower-cased), inserted in order, so that a
      later record with the same trigger replaces an earlier one. */
  function BuildTable(bangs: seq<Bang>): (m: Table)
    ensures IsTableOf(bangs, m)
  {
    if bangs == [] then map[]
    else
      var init := bangs[..|bangs| - 1];
      var last := bangs[|bangs| - 1];
      var m := BuildTable(init);
      assert bangs == init + [last];
      InsertLast(init, last, m);
      m[last.t := last]
  }

  lemma InsertLast(init: seq<Bang>, last: Bang, m: Table)
    requires IsTableOf(init, m)
    ensures IsTableOf(init + [last], m[last.t := last])
  {
    var bangs := init + [last];
    var m' := m[last.t := last];
    assert bangs[|init|] == last;
    forall k ensures k in m' <==> exists i :: 0 <= i < |bangs| && bangs[i].t == k {
      if k in m && k != last.t {
        var i :| 0 <= i < |init| && init[i].t == k;
        assert bangs[i] == init[i];
      }
      if exists i :: 0 <= i < |bangs| && bangs[i].t == k {
        var i :| 0 <= i < |bangs| && bangs[i].t == k;
        if i < |init| { assert init[i] == bangs[i]; }
      }
    }
    forall k | k in m' ensures m'[k].t == k && m'[k] in bangs {
      if k != last.t {
        assert m[k] in init;
      }
    }
    forall i | 0 <= i < |bangs| && IsLastWithTrigger(bangs, i) ensures m'[bangs[i].t] == bangs[i] {
      if i < |init| {
        assert bangs[i] == init[i];
        assert IsLastWithTrigger(init, i) by {
          forall j | i < j < |init| ensures init[j].t != init[i].t {
            assert bangs[j] == init[j];
          }
        }
        assert bangs[|init|].t != bangs[i].t;
      }
    }
  }

  /** The specification of the look-up table as a whole: a key is present
      exactly when some record has it as its trigger, and it maps to the
      last such record. */
  lemma {:induction false} BuildTableLastWins(bangs: seq<Bang>, k: string)
    ensures k in BuildTable(bangs) <==> exists i :: 0 <= i < |bangs| && bangs[i].t == k
    ensures k in BuildTable(bangs) ==>
      exists i :: 0 <= i < |bangs| && IsLastWithTrigger(bangs, i) && bangs[i].t == k
                  && BuildTable(bangs)[k] == bangs[i]
  {
    if k in BuildTable(bangs) {
      var i :| 0 <= i < |bangs| && bangs[i].t == k;
      while !IsLastWithTrigger(bangs, i)
        invariant 0 <= i < |bangs| && bangs[i].t == k
        decreases |bangs| - i
      {
        var j :| i < j < |bangs| && bangs[j].t == bangs[i].t;
        i := j;
      }
    }
  }

  datatype StartupError = DefaultBangNotFound

  /** Lines 7-14: build the table and refuse to go on unless it holds the
      default bang. */
  function Startup(bangs: seq<Bang>): (r: Result<Table, StartupError>)
    ensures r.Success? <==> exists i :: 0 <= i < |bangs| && bangs[i].t == DefaultTrigger
    ensures r.Success? ==> DefaultTrigger in r.value && r.value == BuildTable(bangs)
    ensures r.Success? ==> r.value[DefaultTrigger].t == DefaultTrigger
  {
    var m := BuildTable(bangs);
    if DefaultTrigger in m then Success(m) else Failure(DefaultBangNotFound)
  }

  /** Keys are not lower-cased, while looked-up triggers are: a record whose
      trigger holds an upper-case ASCII letter can never be selected. */
  lemma UppercaseTriggerUnreachable(trigger: string, typed: string)
    requires exists i :: 0 <= i < |trigger| && 'A' <= trigger[i] <= 'Z'
    ensures ToLower(typed) != trigger
  {
    ToLowerIdempotent(typed);
  }
}
