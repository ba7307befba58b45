/**
 * The grammar-check response and the grouping of its matches by issue type.
 *
 * A response holds an optional sequence of matches; every match names the
 * rule that flagged it, and the rule may carry an issue type. The page files
 * every match under its effective issue type, creating the group on first
 * occurrence. This module gives the reference definition of that grouping
 * (`Grouping`), the single filing step the page performs per match (`File`),
 * and the lemmas that connect the two and state what the grouping promises.
 */
module Faults {
  import opened Wrappers

  /** One suggested replacement, `{ value }`. */
  datatype Replacement = Replacement(value: string)

  /** The rule that flagged a match; `issueType` may be missing. */
  datatype Rule = Rule(issueType: Option<string>)

  /** One flagged issue. Message, context and replacements are only displayed. */
  datatype Match = Match(
    message: string,
    contextText: string,
    rule: Rule,
    replacements: Option<seq<Replacement>>)

  /** The decoded JSON body of a check; `matches` may be missing. */
  datatype CheckResult = CheckResult(matches: Option<seq<Match>>)

  /** Ordered association list from issue type to the matches filed under it. */
  type Groups = seq<(string, seq<Match>)>

  /** The label used when a match has no issue type. */
  const Fallback: string := "Autre"

  /** The matches the page groups: none when there is no result or no `matches` field. */
  function MatchesOf(checkResult: Option<CheckResult>): (ms: seq<Match>)
    ensures checkResult.None? ==> ms == []
    ensures checkResult.Some? && checkResult.value.matches.Some? ==> ms == checkResult.value.matches.value
    ensures checkResult.Some? && checkResult.value.matches.None? ==> ms == []
  {
    match checkResult
    case None => []
    case Some(r) => if r.matches.Some? then r.matches.value else []
  }

  /** `match.rule.issueType || 'Autre'`: a missing or empty issue type falls back. */
  function EffectiveType(m: Match): (t: string)
    ensures t != ""
    ensures t == Fallback <==> (m.rule.issueType.None? || m.rule.issueType.value in {"", Fallback})
    ensures m.rule.issueType.Some? && m.rule.issueType.value != "" ==> t == m.rule.issueType.value
  {
    match m.rule.issueType
    case None => Fallback
    case Some(t) => if t == "" then Fallback else t
  }

  /** The effective issue type of each match, in response order. */
  function Types(ms: seq<Match>): (ts: seq<string>)
    ensures |ts| == |ms|
    ensures forall i :: 0 <= i < |ms| ==> ts[i] == EffectiveType(ms[i])
  {
    seq(|ms|, i requires 0 <= i < |ms| => EffectiveType(ms[i]))
  }

  /** The distinct elements of `ts` in order of first appearance. */
  function Dedup(ts: seq<string>): seq<string>
  {
    if ts == [] then []
    else
      var d := Dedup(ts[..|ts| - 1]);
      if ts[|ts| - 1] in d then d else d + [ts[|ts| - 1]]
  }

  /** The matches of `ms` whose effective type is `k`, in response order. */
  function Select(ms: seq<Match>, k: string): seq<Match>
  {
    if ms == [] then []
    else
      Select(ms[..|ms| - 1], k)
      + (if EffectiveType(ms[|ms| - 1]) == k then [ms[|ms| - 1]] else [])
  }

  function Keys(g: Groups): (ks: seq<string>)
    ensures |ks| == |g|
    ensures forall i :: 0 <= i < |g| ==> ks[i] == g[i].0
  {
    seq(|g|, i requires 0 <= i < |g| => g[i].0)
  }

  predicate Distinct(ks: seq<string>)
  {
    forall i, j :: 0 <= i < j < |ks| ==> ks[i] != ks[j]
  }

  /**
   * Reference definition of the grouping: one group per distinct effective
   * type, in order of first appearance, holding the matches of that type in
   * response order.
   */
  function Grouping(ms: seq<Match>): (g: Groups)
    ensures Keys(g) == Dedup(Types(ms))
    ensures forall i :: 0 <= i < |g| ==> g[i].1 == Select(ms, g[i].0)
  {
    var ks := Dedup(Types(ms));
    seq(|ks|, i requires 0 <= i < |ks| => (ks[i], Select(ms, ks[i])))
  }

  /**
   * One step of the page's loop: append `m` to the group of its effective
   * type, or add a new group `[m]` at the end when there is none yet.
   */
  function File(g: Groups, m: Match): (r: Groups)
    ensures EffectiveType(m) in Keys(g) ==> Keys(r) == Keys(g)
    ensures EffectiveType(m) !in Keys(g) ==> Keys(r) == Keys(g) + [EffectiveType(m)] && r[|g|].1 == [m]
    ensures forall i :: 0 <= i < |g| ==>
              r[i].1 == if g[i].0 == EffectiveType(m) then g[i].1 + [m] else g[i].1
  {
    var t := EffectiveType(m);
    if t in Keys(g) then
      seq(|g|, i requires 0 <= i < |g| => if g[i].0 == t then (t, g[i].1 + [m]) else g[i])
    else
      g + [(t, [m])]
  }

  /** The number of matches over all groups. */
  function TotalSize(g: Groups): nat
  {
    if g == [] then 0 else TotalSize(g[..|g| - 1]) + |g[|g| - 1].1|
  }

  /** Position of the first occurrence of `x` in `ts`. */
  function FirstIndex(ts: seq<string>, x: string): (n: nat)
    requires x in ts
    ensures n < |ts| && ts[n] == x && x !in ts[..n]
  {
    if ts[0] == x then 0 else 1 + FirstIndex(ts[1..], x)
  }

  // ---------------------------------------------------------------------
  // Properties of the building blocks
  // ---------------------------------------------------------------------

  /** The keys are exactly the effective types that occur. */
  lemma {:induction false} DedupMembers(ts: seq<string>)
    ensures forall x :: x in Dedup(ts) <==> x in ts
  {
    if ts != [] {
      var init := ts[..|ts| - 1];
      DedupMembers(init);
      assert ts == init + [ts[|ts| - 1]];
    }
  }

  /** No key appears twice. */
  lemma {:induction false} DedupDistinct(ts: seq<string>)
    ensures Distinct(Dedup(ts))
  {
    if ts != [] {
      DedupDistinct(ts[..|ts| - 1]);
    }
  }

  /** Keys are ordered by the first appearance of their type. */
  lemma {:induction false} DedupFirstAppearance(ts: seq<string>, i: nat, j: nat)
    requires i < j < |Dedup(ts)|
    ensures Dedup(ts)[i] in ts && Dedup(ts)[j] in ts
    ensures FirstIndex(ts, Dedup(ts)[i]) < FirstIndex(ts, Dedup(ts)[j])
  {
    DedupMembers(ts);
    var init := ts[..|ts| - 1];
    var last := ts[|ts| - 1];
    var d := Dedup(init);
    DedupMembers(init);
    assert ts == init + [last];
    if j < |d| {
      DedupFirstAppearance(init, i, j);
      FirstIndexPrefix(init, last, d[i]);
      FirstIndexPrefix(init, last, d[j]);
    } else {
      // d[j] is the last element, new in ts; d[i] already occurs in init.
      assert Dedup(ts)[j] == last && last !in init;
      FirstIndexPrefix(init, last, d[i]);
    }
  }

  lemma {:induction false} FirstIndexPrefix(init: seq<string>, last: string, x: string)
    requires x in init
    ensures x in init + [last]
    ensures FirstIndex(init + [last], x) == FirstIndex(init, x)
  {
    var ts := init + [last];
    if init[0] != x {
      assert ts[1..] == init[1..] + [last];
      FirstIndexPrefix(init[1..], last, x);
    }
  }

  /** A selection keeps exactly the matches of the given type. */
  lemma {:induction false} SelectMembers(ms: seq<Match>, k: string)
    ensures forall m :: m in Select(ms, k) <==> m in ms && EffectiveType(m) == k
  {
    if ms != [] {
      var init := ms[..|ms| - 1];
      SelectMembers(init, k);
      assert ms == init + [ms[|ms| - 1]];
    }
  }

  /** A selection is empty exactly when the type does not occur. */
  lemma {:induction false} SelectEmpty(ms: seq<Match>, k: string)
    ensures Select(ms, k) == [] <==> k !in Types(ms)
  {
    SelectMembers(ms, k);
    if k in Types(ms) {
      var i :| 0 <= i < |ms| && Types(ms)[i] == k;
      assert ms[i] in Select(ms, k);
    }
    if Select(ms, k) != [] {
      var m := Select(ms, k)[0];
      assert m in Select(ms, k);
      var p :| 0 <= p < |ms| && ms[p] == m;
      assert Types(ms)[p] == k;
    }
  }

  lemma SelectSnoc(ms: seq<Match>, m: Match, k: string)
    ensures Select(ms + [m], k) == if EffectiveType(m) == k then Select(ms, k) + [m] else Select(ms, k)
  {
    assert (ms + [m])[..|ms|] == ms;
    assert Select(ms, k) + [] == Select(ms, k);
  }

  lemma TypesSnoc(ms: seq<Match>, m: Match)
    ensures Types(ms + [m]) == Types(ms) + [EffectiveType(m)]
  {
  }

  // ---------------------------------------------------------------------
  // The filing step builds the reference grouping
  // ---------------------------------------------------------------------

  /**
   * Filing one more match into the grouping of a prefix yields the grouping
   * of the longer prefix; this is what makes the page's loop compute
   * `Grouping` of the whole response.
   */
  lemma {:induction false} FileStep(ms: seq<Match>, m: Match)
    ensures Grouping(ms + [m]) == File(Grouping(ms), m)
  {
    var t := EffectiveType(m);
    var ts := Types(ms);
    TypesSnoc(ms, m);
    assert (ts + [t])[..|ts|] == ts;
    assert Keys(Grouping(ms)) == Dedup(ts);
    if t in Dedup(ts) {
      FileStepKnownType(ms, m);
    } else {
      FileStepNewType(ms, m);
    }
  }

  lemma FileStepKnownType(ms: seq<Match>, m: Match)
    requires EffectiveType(m) in Dedup(Types(ms))
    ensures Grouping(ms + [m]) == File(Grouping(ms), m)
  {
    var t := EffectiveType(m);
    var ks := Dedup(Types(ms));
    var g := Grouping(ms);
    var g' := Grouping(ms + [m]);
    TypesSnoc(ms, m);
    assert (Types(ms) + [t])[..|ms|] == Types(ms);
    assert Dedup(Types(ms + [m])) == ks;
    assert t in Keys(g);
    forall i | 0 <= i < |g|
      ensures g'[i] == File(g, m)[i]
    {
      SelectSnoc(ms, m, ks[i]);
      assert g'[i].0 == Keys(g')[i] == ks[i] == Keys(g)[i] == g[i].0;
      assert g'[i].1 == Select(ms + [m], ks[i]);
      assert g[i].1 == Select(ms, ks[i]);
      assert File(g, m)[i] == if g[i].0 == t then (t, g[i].1 + [m]) else g[i];
    }
  }

  lemma FileStepNewType(ms: seq<Match>, m: Match)
    requires EffectiveType(m) !in Dedup(Types(ms))
    ensures Grouping(ms + [m]) == File(Grouping(ms), m)
  {
    var t := EffectiveType(m);
    var ks := Dedup(Types(ms));
    var g := Grouping(ms);
    var g' := Grouping(ms + [m]);
    TypesSnoc(ms, m);
    assert (Types(ms) + [t])[..|ms|] == Types(ms);
    assert Dedup(Types(ms + [m])) == ks + [t];
    assert t !in Keys(g);
    DedupMembers(Types(ms));
    SelectEmpty(ms, t);
    SelectSnoc(ms, m, t);
    assert |g'| == |g| + 1;
    assert g'[|g|].0 == Keys(g')[|g|] == t;
    assert g'[|g|].1 == Select(ms + [m], t) == [m];
    forall i | 0 <= i < |g|
      ensures g'[i] == g[i]
    {
      SelectSnoc(ms, m, ks[i]);
      assert g'[i].0 == Keys(g')[i] == ks[i] == Keys(g)[i] == g[i].0;
      assert g'[i].1 == Select(ms + [m], ks[i]);
      assert g[i].1 == Select(ms, ks[i]);
    }
    assert g' == g + [(t, [m])];
  }

  // ---------------------------------------------------------------------
  // What the grouping promises
  // ---------------------------------------------------------------------

  /** Absent input or an empty list of matches gives no groups. */
  lemma EmptyGrouping(checkResult: Option<CheckResult>)
    ensures checkResult.None? || checkResult.value.matches.None? || checkResult.value.matches.value == []
            ==> Grouping(MatchesOf(checkResult)) == []
  {
  }

  /** Group keys are pairwise distinct. */
  lemma GroupingKeysDistinct(ms: seq<Match>)
    ensures Distinct(Keys(Grouping(ms)))
  {
    DedupDistinct(Types(ms));
  }

  /** Key order is the order of first appearance of each effective type. */
  lemma GroupingKeyOrder(ms: seq<Match>, i: nat, j: nat)
    requires i < j < |Grouping(ms)|
    ensures Grouping(ms)[i].0 in Types(ms) && Grouping(ms)[j].0 in Types(ms)
    ensures FirstIndex(Types(ms), Grouping(ms)[i].0) < FirstIndex(Types(ms), Grouping(ms)[j].0)
  {
    assert Keys(Grouping(ms))[i] == Grouping(ms)[i].0;
    assert Keys(Grouping(ms))[j] == Grouping(ms)[j].0;
    DedupFirstAppearance(Types(ms), i, j);
  }

  /** Every effective type that occurs has a group, and every group key occurs. */
  lemma GroupingCoversTypes(ms: seq<Match>)
    ensures forall k :: k in Keys(Grouping(ms)) <==> k in Types(ms)
  {
    DedupMembers(Types(ms));
  }

  /**
   * Partition: each group holds exactly the matches whose effective type is
   * its key, so every match lies in the group of its own type and in no other.
   */
  lemma GroupingMembers(ms: seq<Match>)
    ensures forall i, m :: 0 <= i < |Grouping(ms)| ==>
              (m in Grouping(ms)[i].1 <==> m in ms && EffectiveType(m) == Grouping(ms)[i].0)
    ensures forall m :: m in ms ==> exists i :: 0 <= i < |Grouping(ms)| && Grouping(ms)[i].0 == EffectiveType(m)
  {
    var g := Grouping(ms);
    forall i | 0 <= i < |g| {
      SelectMembers(ms, g[i].0);
    }
    GroupingCoversTypes(ms);
    forall m | m in ms
      ensures exists i :: 0 <= i < |g| && g[i].0 == EffectiveType(m)
    {
      var p :| 0 <= p < |ms| && ms[p] == m;
      assert Types(ms)[p] == EffectiveType(m);
      assert EffectiveType(m) in Keys(g);
      var i :| 0 <= i < |g| && Keys(g)[i] == EffectiveType(m);
    }
  }

  /** No group is empty. */
  lemma GroupingNonEmpty(ms: seq<Match>)
    ensures forall i :: 0 <= i < |Grouping(ms)| ==> Grouping(ms)[i].1 != []
  {
    var g := Grouping(ms);
    GroupingCoversTypes(ms);
    forall i | 0 <= i < |g|
      ensures g[i].1 != []
    {
      assert g[i].0 == Keys(g)[i];
      SelectEmpty(ms, g[i].0);
    }
  }

  /**
   * Per-group order: selecting from a response cut in two gives the selection
   * from the first part followed by that from the second, so a match that came
   * earlier in the response comes earlier in its group.
   */
  lemma {:induction false} SelectAppend(ms1: seq<Match>, ms2: seq<Match>, k: string)
    ensures Select(ms1 + ms2, k) == Select(ms1, k) + Select(ms2, k)
  {
    if ms2 == [] {
      assert ms1 + ms2 == ms1;
    } else {
      var init := ms2[..|ms2| - 1];
      var last := ms2[|ms2| - 1];
      assert ms2 == init + [last];
      assert ms1 + ms2 == (ms1 + init) + [last];
      SelectAppend(ms1, init, k);
      SelectSnoc(ms1 + init, last, k);
      SelectSnoc(init, last, k);
    }
  }

  lemma {:induction false} TotalSizeUpdate(g: Groups, j: nat, p: (string, seq<Match>))
    requires j < |g|
    ensures TotalSize(g[j := p]) + |g[j].1| == TotalSize(g) + |p.1|
  {
    var n := |g| - 1;
    if j < n {
      assert g[j := p][..n] == g[..n][j := p];
      TotalSizeUpdate(g[..n], j, p);
    } else {
      assert g[j := p][..n] == g[..n];
    }
  }

  /** With distinct keys, filing a match changes only the group of its own type. */
  lemma FileAt(g: Groups, m: Match, j: nat)
    requires Distinct(Keys(g))
    requires j < |g| && g[j].0 == EffectiveType(m)
    ensures File(g, m) == g[j := (g[j].0, g[j].1 + [m])]
  {
    assert Keys(g)[j] == g[j].0;
  }

  /** Filing one match adds exactly one to the total size. */
  lemma FileTotalSize(g: Groups, m: Match)
    requires Distinct(Keys(g))
    ensures TotalSize(File(g, m)) == TotalSize(g) + 1
  {
    var t := EffectiveType(m);
    if t in Keys(g) {
      var j :| 0 <= j < |g| && Keys(g)[j] == t;
      FileAt(g, m, j);
      TotalSizeUpdate(g, j, (t, g[j].1 + [m]));
    } else {
      assert (g + [(t, [m])])[..|g|] == g;
    }
  }

  /** Partition: the group sizes add up to the number of matches. */
  lemma {:induction false} GroupingTotalSize(ms: seq<Match>)
    ensures TotalSize(Grouping(ms)) == |ms|
  {
    if ms != [] {
      var init := ms[..|ms| - 1];
      GroupingTotalSize(init);
      GroupingKeysDistinct(init);
      FileStep(init, ms[|ms| - 1]);
      assert init + [ms[|ms| - 1]] == ms;
      FileTotalSize(Grouping(init), ms[|ms| - 1]);
    }
  }

  /** When every match has the same effective type there is one group holding all of them. */
  lemma {:induction false} GroupingUniform(ms: seq<Match>, t: string)
    requires ms != []
    requires forall i :: 0 <= i < |ms| ==> EffectiveType(ms[i]) == t
    ensures Grouping(ms) == [(t, ms)]
  {
    var init := ms[..|ms| - 1];
    assert init + [ms[|ms| - 1]] == ms;
    FileStep(init, ms[|ms| - 1]);
    if init == [] {
      assert File(Grouping(init), ms[0]) == [(t, [ms[0]])];
    } else {
      GroupingUniform(init, t);
      assert Keys([(t, init)]) == [t];
    }
  }
}
