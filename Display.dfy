/**
 * What the result panel derives from the last check result: the number of
 * faults, the red/green verdict, which panel is shown below it, the plural
 * suffix of each group header and the comma-joined suggestion line.
 */
module Display {
  import opened Wrappers
  import opened Faults

  datatype Colour = Red | Green

  /** The block shown under the summary: the per-type details, the "perfect" notice, or nothing. */
  datatype Panel = Details | Perfect | NoPanel

  /** `checkResult.matches?.length || 0`. */
  function FaultCount(r: CheckResult): (n: nat)
    ensures n == |MatchesOf(Some(r))|
  {
    if r.matches.Some? then |r.matches.value| else 0
  }

  /** `checkResult.matches?.length > 0 ? 'red' : 'green'`; a missing list compares as false. */
  function Verdict(r: CheckResult): (c: Colour)
    ensures c == Red <==> r.matches.Some? && r.matches.value != []
  {
    if r.matches.Some? && |r.matches.value| > 0 then Red else Green
  }

  /** The details block needs a non-empty list, the notice an empty one; a missing list shows neither. */
  function ResultPanel(r: CheckResult): (p: Panel)
    ensures p == NoPanel <==> r.matches.None?
  {
    match r.matches
    case None => NoPanel
    case Some(ms) => if |ms| > 0 then Details else Perfect
  }

  /** `faute{fautes.length > 1 ? 's' : ''}`. */
  function PluralSuffix(n: nat): (s: string)
    ensures s == "s" <==> n > 1
    ensures s == "" <==> n <= 1
  {
    if n > 1 then "s" else ""
  }

  /** The total length of the strings in `vs`. */
  function SumLengths(vs: seq<string>): nat
  {
    if vs == [] then 0 else |vs[0]| + SumLengths(vs[1..])
  }

  /** `array.join(sep)`: the empty list joins to the empty string. */
  function Join(vs: seq<string>, sep: string): (s: string)
    ensures vs == [] ==> s == ""
    ensures vs != [] ==> |s| == SumLengths(vs) + |sep| * (|vs| - 1)
  {
    if |vs| == 0 then ""
    else if |vs| == 1 then vs[0]
    else vs[0] + sep + Join(vs[1..], sep)
  }

  /** The values of the replacements, in order. */
  function Values(reps: seq<Replacement>): (vs: seq<string>)
    ensures |vs| == |reps|
    ensures forall i :: 0 <= i < |reps| ==> vs[i] == reps[i].value
  {
    seq(|reps|, i requires 0 <= i < |reps| => reps[i].value)
  }

  /** The suggestion line of one match: absent unless there is at least one replacement. */
  function Suggestions(reps: Option<seq<Replacement>>): (line: Option<string>)
    ensures line.Some? <==> reps.Some? && reps.value != []
  {
    if reps.Some? && |reps.value| > 0 then Some(Join(Values(reps.value), ", ")) else None
  }

  /** Splits a string at every comma; a string with k commas gives k + 1 pieces. */
  function SplitAtCommas(s: string): (ps: seq<string>)
    ensures |ps| >= 1
  {
    if s == [] then [""]
    else if s[0] == ',' then [""] + SplitAtCommas(s[1..])
    else
      var rest := SplitAtCommas(s[1..]);
      [[s[0]] + rest[0]] + rest[1..]
  }

  /** Reads a suggestion line back: split at commas, drop the space after each separator. */
  function Unjoin(line: string): (vs: seq<string>)
  {
    var ps := SplitAtCommas(line);
    [ps[0]] + seq(|ps| - 1, i requires 0 <= i < |ps| - 1 => if ps[i + 1] != [] then ps[i + 1][1..] else [])
  }

  /** Where `vs[i]` starts in the joined string: every earlier value and its separator come first. */
  function Offset(vs: seq<string>, sep: string, i: nat): nat
    requires i <= |vs|
  {
    if i == 0 then 0 else |vs[0]| + |sep| + Offset(vs[1..], sep, i - 1)
  }

  predicate NoComma(vs: seq<string>)
  {
    forall i :: 0 <= i < |vs| ==> ',' !in vs[i]
  }

  // ---------------------------------------------------------------------
  // Lemmas
  // ---------------------------------------------------------------------

  /** The displayed count is the number of matches the grouping distributes over its groups. */
  lemma FaultCountIsGroupedTotal(r: CheckResult)
    ensures FaultCount(r) == TotalSize(Grouping(MatchesOf(Some(r))))
    ensures FaultCount(r) == 0 <==> Grouping(MatchesOf(Some(r))) == []
  {
    var ms := MatchesOf(Some(r));
    GroupingTotalSize(ms);
    if ms != [] {
      GroupingNonEmpty(ms);
      GroupingCoversTypes(ms);
      assert Types(ms)[0] in Keys(Grouping(ms));
    }
  }

  /** Red exactly when the details block is shown; the "perfect" notice always comes with green. */
  lemma PanelAgreesWithVerdict(r: CheckResult)
    ensures ResultPanel(r) == Details <==> Verdict(r) == Red
    ensures ResultPanel(r) == Perfect ==> Verdict(r) == Green && FaultCount(r) == 0
    ensures Verdict(r) == Red <==> FaultCount(r) > 0
  {
  }

  lemma SliceShift(a: string, b: string, x: nat, y: nat)
    requires x <= y <= |b|
    ensures (a + b)[|a| + x..|a| + y] == b[x..y]
  {
  }

  /** For all values and separators: the joined string holds `vs[i]` at its offset. */
  lemma {:induction false} JoinAt(vs: seq<string>, sep: string, i: nat)
    requires i < |vs|
    ensures Offset(vs, sep, i) + |vs[i]| <= |Join(vs, sep)|
    ensures Join(vs, sep)[Offset(vs, sep, i)..Offset(vs, sep, i) + |vs[i]|] == vs[i]
  {
    if |vs| > 1 {
      var rest := vs[1..];
      var head := vs[0] + sep;
      var tail := Join(rest, sep);
      assert Join(vs, sep) == head + tail;
      if i > 0 {
        JoinAt(rest, sep, i - 1);
        var o := Offset(rest, sep, i - 1);
        assert Offset(vs, sep, i) == |head| + o;
        assert rest[i - 1] == vs[i];
        SliceShift(head, tail, o, o + |vs[i]|);
      } else {
        assert (head + tail)[..|vs[0]|] == vs[0];
      }
    }
  }

  /** Every value but the last is followed by the separator. */
  lemma {:induction false} JoinSeparatorAfter(vs: seq<string>, sep: string, i: nat)
    requires i + 1 < |vs|
    ensures Offset(vs, sep, i) + |vs[i]| + |sep| <= |Join(vs, sep)|
    ensures Join(vs, sep)[Offset(vs, sep, i) + |vs[i]|..Offset(vs, sep, i) + |vs[i]| + |sep|] == sep
  {
    var rest := vs[1..];
    var head := vs[0] + sep;
    var tail := Join(rest, sep);
    assert Join(vs, sep) == head + tail;
    if i > 0 {
      JoinSeparatorAfter(rest, sep, i - 1);
      var o := Offset(rest, sep, i - 1);
      assert Offset(vs, sep, i) == |head| + o;
      assert rest[i - 1] == vs[i];
      SliceShift(head, tail, o + |vs[i]|, o + |vs[i]| + |sep|);
    } else {
      assert (head + tail)[|vs[0]|..|vs[0]| + |sep|] == sep;
    }
  }

  /** The joined string ends with the last value: nothing follows it. */
  lemma JoinEndsWithLast(vs: seq<string>, sep: string)
    requires vs != []
    ensures Offset(vs, sep, |vs| - 1) + |vs[|vs| - 1]| == |Join(vs, sep)|
  {
    OffsetTotal(vs, sep, |vs| - 1);
  }

  lemma {:induction false} OffsetTotal(vs: seq<string>, sep: string, i: nat)
    requires i < |vs| && i == |vs| - 1
    ensures Offset(vs, sep, i) + |vs[i]| == SumLengths(vs) + |sep| * (|vs| - 1)
  {
    if i > 0 {
      OffsetTotal(vs[1..], sep, i - 1);
    }
  }

  lemma {:induction false} SplitNoComma(s: string)
    requires ',' !in s
    ensures SplitAtCommas(s) == [s]
  {
    if s != [] {
      SplitNoComma(s[1..]);
      assert [s[0]] + s[1..] == s;
    }
  }

  lemma {:induction false} SplitAfterComma(a: string, b: string)
    requires ',' !in a
    ensures SplitAtCommas(a + [','] + b) == [a] + SplitAtCommas(b)
  {
    if a == [] {
      assert ([] + [','] + b)[1..] == b;
    } else {
      assert (a + [','] + b)[1..] == a[1..] + [','] + b;
      SplitAfterComma(a[1..], b);
      assert [a[0]] + a[1..] == a;
    }
  }

  /** Splitting a ", "-joined line gives the first value and every later value behind a space. */
  lemma {:induction false} SplitJoin(vs: seq<string>)
    requires vs != [] && NoComma(vs)
    ensures SplitAtCommas(Join(vs, ", ")) == [vs[0]] + seq(|vs| - 1, i requires 0 <= i < |vs| - 1 => " " + vs[i + 1])
  {
    if |vs| == 1 {
      SplitNoComma(vs[0]);
    } else {
      var rest := vs[1..];
      assert NoComma(rest) by {
        forall i | 0 <= i < |rest| ensures ',' !in rest[i] { assert rest[i] == vs[i + 1]; }
      }
      SplitJoin(rest);
      var tail := Join(rest, ", ");
      assert Join(vs, ", ") == vs[0] + [','] + (" " + tail);
      SplitAfterComma(vs[0], " " + tail);
      assert (" " + tail)[1..] == tail;
      var ps := SplitAtCommas(tail);
      assert SplitAtCommas(" " + tail) == [" " + ps[0]] + ps[1..];
      assert SplitAtCommas(Join(vs, ", ")) == [vs[0]] + ([" " + ps[0]] + ps[1..]);
    }
  }

  /** Round trip: comma-free replacement values are recovered from their suggestion line, in order. */
  lemma UnjoinJoin(vs: seq<string>)
    requires vs != [] && NoComma(vs)
    ensures Unjoin(Join(vs, ", ")) == vs
  {
    SplitJoin(vs);
    var ps := SplitAtCommas(Join(vs, ", "));
    var tail := seq(|ps| - 1, i requires 0 <= i < |ps| - 1 => if ps[i + 1] != [] then ps[i + 1][1..] else []);
    assert |ps| == |vs|;
    assert Unjoin(Join(vs, ", ")) == [ps[0]] + tail;
    forall i | 0 <= i < |vs| - 1 ensures tail[i] == vs[i + 1] {
      assert ps[i + 1] == " " + vs[i + 1];
      assert (" " + vs[i + 1])[1..] == vs[i + 1];
    }
    assert [ps[0]] + tail == vs;
  }

  /** The suggestion line of a match lists its replacement values, in order. */
  lemma SuggestionsRoundTrip(reps: seq<Replacement>)
    requires reps != [] && NoComma(Values(reps))
    ensures Suggestions(Some(reps)).Some?
    ensures Unjoin(Suggestions(Some(reps)).value) == Values(reps)
  {
    UnjoinJoin(Values(reps));
  }

  /** A type has at least two matches exactly when it occurs at two positions of the response. */
  lemma {:induction false} SelectAtLeastTwo(ms: seq<Match>, k: string)
    ensures |Select(ms, k)| > 1 <==>
            exists p, q :: 0 <= p < q < |ms| && EffectiveType(ms[p]) == k && EffectiveType(ms[q]) == k
  {
    if ms != [] {
      var init := ms[..|ms| - 1];
      var last := ms[|ms| - 1];
      assert init + [last] == ms;
      SelectSnoc(init, last, k);
      SelectAtLeastTwo(init, k);
      SelectEmpty(init, k);
      if |Select(ms, k)| > 1 && EffectiveType(last) == k && |Select(init, k)| <= 1 {
        var p :| 0 <= p < |init| && Types(init)[p] == k;
        assert ms[p] == init[p];
      }
      if exists p, q :: 0 <= p < q < |ms| && EffectiveType(ms[p]) == k && EffectiveType(ms[q]) == k {
        var p, q :| 0 <= p < q < |ms| && EffectiveType(ms[p]) == k && EffectiveType(ms[q]) == k;
        if q < |init| {
          assert init[p] == ms[p] && init[q] == ms[q];
        } else {
          assert init[p] == ms[p] && Types(init)[p] == k;
        }
      }
    }
  }

  /** A group header reads "fautes" exactly when its type occurs more than once in the response. */
  lemma GroupHeaderPlural(ms: seq<Match>, i: nat)
    requires i < |Grouping(ms)|
    ensures PluralSuffix(|Grouping(ms)[i].1|) == "s" <==>
            exists p, q :: 0 <= p < q < |ms| && EffectiveType(ms[p]) == Grouping(ms)[i].0 && EffectiveType(ms[q]) == Grouping(ms)[i].0
  {
    SelectAtLeastTwo(ms, Grouping(ms)[i].0);
  }
}
