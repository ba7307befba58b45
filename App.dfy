/**
 * The page component's state and the operations that change or read it: the
 * last check result, the pending install prompt, the grouping of the last
 * result's matches (built in place, one match at a time), and the
 * consumption of the install prompt.
 */
module App {
  import opened Wrappers
  import opened Faults

  /** The `beforeinstallprompt` event the browser hands over; its content is the browser's. */
  datatype InstallPrompt = InstallPrompt(id: nat)

  /** What the user answered to the install prompt. */
  datatype Outcome = Accepted | Dismissed

  /**
   * Looks up the group of issue type `t`, as `categories[type]` does: the
   * position of the first group with that key, or `|g|` when there is none.
   */
  method FindGroup(g: Groups, t: string) returns (j: nat)
    ensures j <= |g|
    ensures j < |g| ==> g[j].0 == t
    ensures j == |g| <==> t !in Keys(g)
    ensures forall i :: 0 <= i < j ==> g[i].0 != t
  {
    j := 0;
    while j < |g| && g[j].0 != t
      invariant j <= |g|
      invariant forall i :: 0 <= i < j ==> g[i].0 != t
    {
      j := j + 1;
    }
    if j == |g| {
      assert forall i :: 0 <= i < |g| ==> Keys(g)[i] != t;
    }
  }

  class Page {
    /** The decoded body of the last successful check, `null` until then. */
    var checkResult: Option<CheckResult>
    /** The deferred install prompt, `null` when none is pending. */
    var installPrompt: Option<InstallPrompt>

    /** `useState(null)` for both. */
    constructor ()
      ensures checkResult == None && installPrompt == None
    {
      checkResult := None;
      installPrompt := None;
    }

    /**
     * The state update that ends a dictation check: a decoded body replaces the
     * last result; a failed request or decoding (`None`) leaves it as it was.
     */
    method ReceiveCheckResult(response: Option<CheckResult>)
      modifies this`checkResult
      ensures checkResult == if response.Some? then response else old(checkResult)
    {
      if response.Some? {
        checkResult := response;
      }
    }

    /**
     * Groups the matches of the last result by effective issue type: walks the
     * matches in response order, creates a group on the first occurrence of a
     * type and appends to it afterwards.
     */
    method CategorizeFaults() returns (categories: Groups)
      ensures categories == Grouping(MatchesOf(checkResult))
      ensures checkResult.None? || checkResult.value.matches.None? ==> categories == []
      ensures Distinct(Keys(categories))
      ensures TotalSize(categories) == |MatchesOf(checkResult)|
    {
      if checkResult.None? || checkResult.value.matches.None? {
        return [];
      }
      var ms := checkResult.value.matches.value;
      categories := [];
      for n := 0 to |ms|
        invariant categories == Grouping(ms[..n])
      {
        var m := ms[n];
        var t := EffectiveType(m);
        GroupingKeysDistinct(ms[..n]);
        var j := FindGroup(categories, t);
        if j == |categories| {
          ghost var before := categories;
          categories := categories + [(t, [])];
          assert categories[j].1 + [m] == [m];
          categories := categories[j := (t, categories[j].1 + [m])];
          assert categories == before + [(t, [m])];
        } else {
          FileAt(categories, m, j);
          categories := categories[j := (t, categories[j].1 + [m])];
        }
        FileStep(ms[..n], m);
        assert ms[..n] + [m] == ms[..n + 1];
      }
      assert ms[..|ms|] == ms;
      GroupingKeysDistinct(ms);
      GroupingTotalSize(ms);
    }

    /** The listener body: keep the event for later instead of showing the browser's banner. */
    method OnBeforeInstallPrompt(e: InstallPrompt)
      modifies this`installPrompt
      ensures installPrompt == Some(e)
    {
      installPrompt := Some(e);
    }

    /**
     * `installPWA`: without a pending prompt nothing happens; otherwise the prompt
     * is shown, the user's `choice` is read (and an acceptance logged), and the
     * prompt is discarded either way, since the browser delivers it only once.
     */
    method InstallPwa(choice: Outcome) returns (prompted: bool, installed: bool)
      modifies this`installPrompt
      ensures prompted <==> old(installPrompt).Some?
      ensures installed <==> prompted && choice == Accepted
      ensures installPrompt == None
    {
      if installPrompt.None? {
        return false, false;
      }
      prompted := true;
      installed := choice == Accepted;
      installPrompt := None;
    }
  }
}
