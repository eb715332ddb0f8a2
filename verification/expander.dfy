/**
 * `ContentExpander`: the decision rules over counts of matched and visible elements that
 * say whether an article is expanded, the click loop that keeps going past failing
 * elements, the bounded modal-closing rounds, and the step order and retry count of
 * `fully_expand`.
 */
module Expander {
  import opened Wrappers
  import opened Text
  import opened Dom
  import opened Retry
  import Validator

  /**
   * The collapsed-section marker. The source writes it with single and with double
   * quotes; both spellings select the same elements and are one selector here.
   */
  const HiddenMarker := "[data-e2e-test-id='section-content-is-hidden']"

  /** The expanded-section marker. */
  const ShownMarker := "[data-e2e-test-id='section-content-is-shown']"

  /** The eight selectors of `expand_selectors`. */
  const ExpandSelectors: seq<string> := [
    HiddenMarker,
    "text='Weiterlesen'",
    "text='Read more'",
    "text='Mehr anzeigen'",
    "text='Show more'",
    "[data-testid='expand-button']",
    ".expand-button",
    ".read-more-button"
  ]

  /** The three selectors of `_verify_expansion`. */
  const VerifySelectors: seq<string> := [
    HiddenMarker,
    "text='Weiterlesen'",
    "text='Read more'"
  ]

  // ---------------------------------------------------------------- verify_content_is_expanded

  /**
   * `verify_content_is_expanded`: no collapsed marker and at least one expanded marker;
   * False when either count raises.
   */
  function VerifyContentIsExpanded(p: Page): (ok: bool)
    ensures ok <==>
      HiddenMarker !in p.broken && ShownMarker !in p.broken &&
      NoneMatch(p.elements, HiddenMarker) && !NoneMatch(p.elements, ShownMarker)
  {
    MatchCountZero(p.elements, HiddenMarker);
    MatchCountZero(p.elements, ShownMarker);
    if HiddenMarker in p.broken || ShownMarker in p.broken then false
    else if MatchCount(p, HiddenMarker) > 0 then false
    else if MatchCount(p, ShownMarker) == 0 then false
    else true
  }

  // ---------------------------------------------------------------- is_fully_expanded

  /**
   * `is_fully_expanded`: True when no collapsed marker exists, otherwise True exactly when
   * none of them is visible; False when counting raises.
   */
  method IsFullyExpanded(p: Page) returns (ok: bool)
    ensures ok <==> HiddenMarker !in p.broken && NoneVisible(p.elements, HiddenMarker)
    ensures HiddenMarker !in p.broken && NoneMatch(p.elements, HiddenMarker) ==> ok
  {
    VisibleCountZero(p.elements, HiddenMarker);
    MatchCountZero(p.elements, HiddenMarker);
    if HiddenMarker in p.broken {
      return false;
    }
    if MatchCount(p, HiddenMarker) == 0 {
      return true;
    }
    var visible := CountVisible(p, HiddenMarker);
    ok := visible == 0;
  }

  /** What `verify_content_is_expanded` accepts, `is_fully_expanded` accepts too. */
  lemma ContentExpandedMeansFullyExpanded(p: Page)
    requires VerifyContentIsExpanded(p)
    ensures HiddenMarker !in p.broken && NoneVisible(p.elements, HiddenMarker)
  {
  }

  // ---------------------------------------------------------------- _verify_expansion

  /** What `_verify_expansion` does on page `p`: pass, or raise `ExpansionFailure`. */
  function Verdict(p: Page): (o: Outcome)
    ensures o.Fail? <==> VisibleTotal(p, VerifySelectors) > 0
    ensures o.Fail? ==> o.error == NatToString(VisibleTotal(p, VerifySelectors)) + " sections still hidden after expansion"
  {
    var hidden := VisibleTotal(p, VerifySelectors);
    if hidden > 0 then Fail(NatToString(hidden) + " sections still hidden after expansion") else Pass
  }

  /** `_verify_expansion`. */
  method VerifyExpansion(p: Page) returns (o: Outcome)
    ensures o == Verdict(p)
  {
    var hidden := CountVisibleTotal(p, VerifySelectors);
    if hidden > 0 {
      o := Fail(NatToString(hidden) + " sections still hidden after expansion");
    } else {
      o := Pass;
    }
  }

  /**
   * The verification selectors are the first three page-validation selectors, so a page
   * `validate_page` passes also passes `_verify_expansion`.
   */
  lemma ValidatedPagePassesVerification(p: Page)
    requires Validator.PageReportOf(p).validationPassed
    ensures Verdict(p).Pass?
  {
    assert Validator.HiddenSelectors[..3] == VerifySelectors;
    VisibleTotalPrefix(p, Validator.HiddenSelectors, 3);
  }

  // ---------------------------------------------------------------- fully_expand

  /** The strategies one attempt of `fully_expand` runs. */
  datatype Step = ConsentStep | ClickStep | JsFallbackStep | WaitStep | VerifyStep

  /** The order of the strategies within one attempt. */
  const AttemptSteps: seq<Step> := [ConsentStep, ClickStep, JsFallbackStep, WaitStep, VerifyStep]

  /** `stop_after_attempt(4)`. */
  const ExpandAttempts := 4

  /** `n` attempts' worth of steps, one attempt after another. */
  function Trace(n: nat): (r: seq<Step>)
    ensures |r| == 5 * n
    ensures forall k :: 0 <= k < |r| ==> r[k] == AttemptSteps[k % 5]
  {
    if n == 0 then []
    else
      var r := Trace(n - 1) + AttemptSteps;
      forall k | 5 * (n - 1) <= k < |r| ensures r[k] == AttemptSteps[k % 5] {
        ModAfterMultiple(k, n - 1);
      }
      r
  }

  lemma ModAfterMultiple(k: nat, q: nat)
    requires 5 * q <= k < 5 * q + 5
    ensures k % 5 == k - 5 * q
  {
  }

  /** What a call of `fully_expand` ends with, how many attempts it made and the steps it ran. */
  datatype Expansion = Expansion(outcome: Outcome, attempts: nat, steps: seq<Step>)

  function AsResult(o: Outcome): Result<()> {
    if o.Pass? then Success(()) else Failure(o.error)
  }

  /** Some one of the four checks of a `fully_expand` call finds nothing hidden. */
  predicate ExpansionSettles(pageAt: nat -> Page) {
    exists i :: 0 <= i < ExpandAttempts && Verdict(pageAt(i)).Pass?
  }

  /** The exception class `_verify_expansion` raises. */
  const ExpansionFailureType := "ExpansionFailure"

  /**
   * The retried `_verify_expansion` calls of one `fully_expand`, `pageAt(i)` seen on attempt
   * `i`; `future` is the address tenacity's last future is shown at.
   */
  function VerifyRuns(pageAt: nat -> Page, future: string): (run: Retried<()>)
    ensures 1 <= run.used <= ExpandAttempts
    ensures run.result.Success? <==> exists i :: 0 <= i < ExpandAttempts && Verdict(pageAt(i)).Pass?
    ensures forall j :: 0 <= j < run.used - 1 ==> Verdict(pageAt(j)).Fail?
    ensures run.result.Success? ==> Verdict(pageAt(run.used - 1)).Pass?
    ensures run.result.Failure? ==>
      run.used == ExpandAttempts && run.result.error == RetryErrorText(future, ExpansionFailureType)
  {
    var attempt := (i: nat) => AsResult(Verdict(pageAt(i)));
    assert forall i: nat :: attempt(i).Success? <==> Verdict(pageAt(i)).Pass?;
    RetryUpTo(attempt, _ => ExpansionFailureType, future, ExpandAttempts)
  }

  /**
   * `fully_expand` as written: `pageAt(i)` is the page `_verify_expansion` sees on attempt
   * `i`, every other step swallows its own errors. Without `reraise=True`, four failed
   * attempts end in tenacity's `RetryError`, whose text names only the exception's type.
   */
  function FullyExpandAsWritten(pageAt: nat -> Page, future: string): (r: Expansion)
    ensures 1 <= r.attempts <= ExpandAttempts
    ensures r.steps == Trace(r.attempts)
    ensures r.outcome.Pass? <==> exists i :: 0 <= i < ExpandAttempts && Verdict(pageAt(i)).Pass?
    ensures forall i :: 0 <= i < r.attempts - 1 ==> Verdict(pageAt(i)).Fail?
    ensures r.outcome.Pass? ==> Verdict(pageAt(r.attempts - 1)).Pass?
    ensures r.outcome.Fail? ==>
      r.attempts == ExpandAttempts && r.outcome.error == RetryErrorText(future, ExpansionFailureType)
  {
    var run := VerifyRuns(pageAt, future);
    Expansion(if run.result.Success? then Pass else Fail(run.result.error), run.used, Trace(run.used))
  }

  /**
   * As written, exhausted retries surface as `RetryError`, never as `ExpansionFailure`'s
   * message: the one starts with `R`, the other with the count of hidden sections.
   */
  lemma FullyExpandLosesExpansionFailure(pageAt: nat -> Page, future: string)
    requires forall i :: 0 <= i < ExpandAttempts ==> Verdict(pageAt(i)).Fail?
    ensures FullyExpandAsWritten(pageAt, future).outcome.Fail?
    ensures FullyExpandAsWritten(pageAt, future).outcome.error != Verdict(pageAt(3)).error
  {
    var r := FullyExpandAsWritten(pageAt, future);
    var hidden := NatToString(VisibleTotal(pageAt(3), VerifySelectors));
    assert r.outcome.error[0] == 'R';
    assert Verdict(pageAt(3)).error[0] == hidden[0];
  }

  /**
   * `fully_expand` as its tests expect it (`reraise=True`): up to four attempts of the same
   * five steps, and after the fourth failure the last `ExpansionFailure` propagates.
   */
  function FullyExpand(pageAt: nat -> Page): (r: Expansion)
    ensures 1 <= r.attempts <= ExpandAttempts
    ensures r.steps == Trace(r.attempts)
    ensures r.outcome.Pass? <==> exists i :: 0 <= i < ExpandAttempts && Verdict(pageAt(i)).Pass?
    ensures forall i :: 0 <= i < r.attempts - 1 ==> Verdict(pageAt(i)).Fail?
    ensures r.outcome.Pass? ==> Verdict(pageAt(r.attempts - 1)).Pass?
    ensures r.outcome.Fail? ==> r.attempts == ExpandAttempts && r.outcome == Verdict(pageAt(3))
  {
    var run := VerifyRuns(pageAt, "");
    var outcome := if run.result.Success? then Pass else Verdict(pageAt(3));
    Expansion(outcome, run.used, Trace(run.used))
  }

  // ---------------------------------------------------------------- _click_expansion_buttons

  /** The clicks on `sel` among the first `n` elements: its visible matches, in document order. */
  function Row(p: Page, sel: string, n: nat): (row: seq<(string, nat)>)
    requires n <= |p.elements|
    ensures forall k :: 0 <= k < |row| ==> row[k].0 == sel && row[k].1 < n
  {
    if n == 0 then []
    else
      var e := p.elements[n - 1];
      Row(p, sel, n - 1) + (if sel in e.matches && e.visible then [(sel, n - 1)] else [])
  }

  /** Exactly the visible matches, each once, in ascending document position. */
  lemma {:induction false} RowIff(p: Page, sel: string, n: nat)
    requires n <= |p.elements|
    ensures forall i: nat :: (sel, i) in Row(p, sel, n) <==>
      i < n && sel in p.elements[i].matches && p.elements[i].visible
    ensures forall k, l :: 0 <= k < l < |Row(p, sel, n)| ==> Row(p, sel, n)[k].1 < Row(p, sel, n)[l].1
  {
    if n > 0 {
      RowIff(p, sel, n - 1);
    }
  }

  /**
   * The clicks `_click_expansion_buttons` attempts: selector by selector, the visible
   * matches of each selector whose count does not raise.
   */
  function ClickPlan(p: Page, sels: seq<string>): (plan: seq<(string, nat)>)
    ensures forall k :: 0 <= k < |plan| ==> plan[k].0 in sels && plan[k].1 < |p.elements|
  {
    if sels == [] then []
    else
      var init := sels[..|sels| - 1];
      var last := sels[|sels| - 1];
      ClickPlan(p, init) + (if last in p.broken then [] else Row(p, last, |p.elements|))
  }

  /**
   * A failing click never costs a later one: every visible match of every working selector
   * is attempted, and nothing else is.
   */
  lemma {:induction false} ClickPlanIff(p: Page, sels: seq<string>)
    ensures forall s, i: nat :: (s, i) in ClickPlan(p, sels) <==>
      s in sels && s !in p.broken && i < |p.elements| && s in p.elements[i].matches && p.elements[i].visible
  {
    if sels != [] {
      var init := sels[..|sels| - 1];
      var last := sels[|sels| - 1];
      ClickPlanIff(p, init);
      RowIff(p, last, |p.elements|);
      var row := if last in p.broken then [] else Row(p, last, |p.elements|);
      assert ClickPlan(p, sels) == ClickPlan(p, init) + row;
      assert forall s :: s in sels <==> s in init || s == last;
    }
  }

  /** The attempts whose click did not raise. */
  function Succeeded(p: Page, attempts: seq<(string, nat)>): (r: seq<(string, nat)>)
    requires forall k :: 0 <= k < |attempts| ==> attempts[k].1 < |p.elements|
    ensures |r| <= |attempts|
  {
    if attempts == [] then []
    else
      var a := attempts[|attempts| - 1];
      Succeeded(p, attempts[..|attempts| - 1]) + (if p.elements[a.1].clickFails then [] else [a])
  }

  lemma {:induction false} SucceededIff(p: Page, attempts: seq<(string, nat)>)
    requires forall k :: 0 <= k < |attempts| ==> attempts[k].1 < |p.elements|
    ensures forall a :: a in Succeeded(p, attempts) <==> a in attempts && !p.elements[a.1].clickFails
  {
    if attempts != [] {
      var init := attempts[..|attempts| - 1];
      SucceededIff(p, init);
      assert attempts == init + [attempts[|attempts| - 1]];
    }
  }

  lemma {:induction false} SucceededAppend(p: Page, a: seq<(string, nat)>, b: seq<(string, nat)>)
    requires forall k :: 0 <= k < |a| ==> a[k].1 < |p.elements|
    requires forall k :: 0 <= k < |b| ==> b[k].1 < |p.elements|
    ensures Succeeded(p, a + b) == Succeeded(p, a) + Succeeded(p, b)
    decreases |b|
  {
    if b != [] {
      var init := b[..|b| - 1];
      assert (a + b)[..|a + b| - 1] == a + init;
      SucceededAppend(p, a, init);
    } else {
      assert a + b == a;
    }
  }

  /** The inner loop: clicks each visible match of `sel`, going on after a click that raises. */
  method ClickMatches(p: Page, sel: string) returns (row: seq<(string, nat)>, clicked: seq<(string, nat)>)
    ensures row == Row(p, sel, |p.elements|)
    ensures forall k :: 0 <= k < |row| ==> row[k].1 < |p.elements|
    ensures clicked == Succeeded(p, row)
  {
    row, clicked := [], [];
    var i := 0;
    while i < |p.elements|
      invariant i <= |p.elements|
      invariant row == Row(p, sel, i)
      invariant forall k :: 0 <= k < |row| ==> row[k].1 < i
      invariant clicked == Succeeded(p, row)
    {
      var e := p.elements[i];
      if sel in e.matches && e.visible {
        var before := row;
        row := row + [(sel, i)];
        assert row[..|row| - 1] == before;
        if !e.clickFails {
          clicked := clicked + [(sel, i)];
        }
      }
      i := i + 1;
    }
  }

  /**
   * `_click_expansion_buttons` (after `_expand_all_sections`): every visible match of every
   * working selector is clicked; a click that raises is skipped and the loop goes on.
   */
  method ClickExpansionButtons(p: Page) returns (attempted: seq<(string, nat)>, clicked: seq<(string, nat)>)
    ensures attempted == ClickPlan(p, ExpandSelectors)
    ensures forall k :: 0 <= k < |attempted| ==> attempted[k].1 < |p.elements|
    ensures clicked == Succeeded(p, attempted)
  {
    attempted, clicked := [], [];
    var s := 0;
    while s < |ExpandSelectors|
      invariant s <= |ExpandSelectors|
      invariant attempted == ClickPlan(p, ExpandSelectors[..s])
      invariant forall k :: 0 <= k < |attempted| ==> attempted[k].1 < |p.elements|
      invariant clicked == Succeeded(p, attempted)
    {
      var sel := ExpandSelectors[s];
      assert ExpandSelectors[..s + 1][..s] == ExpandSelectors[..s];
      if sel !in p.broken {
        var row, rowClicked := ClickMatches(p, sel);
        SucceededAppend(p, attempted, row);
        attempted, clicked := attempted + row, clicked + rowClicked;
      }
      s := s + 1;
    }
    assert ExpandSelectors[..s] == ExpandSelectors;
  }

  // ---------------------------------------------------------------- _tier3_aggressive_retry

  /**
   * How one modal-closing round ends: `#ds-modal` is gone, it is still there, or the round
   * raised (Escape or the modal query failed), which abandons the tier.
   */
  datatype RoundEnd = ModalGone | ModalRemains | RoundRaised

  const MaxModalRounds := 3

  /**
   * `_tier3_aggressive_retry`: `roundEnd(i)` is how round `i` ends. Returns how many rounds
   * ran: every round but the last left the modal in place, and fewer than three ran only
   * when the last one removed the modal or raised.
   */
  method Tier3AggressiveRetry(roundEnd: nat -> RoundEnd) returns (rounds: nat)
    ensures 1 <= rounds <= MaxModalRounds
    ensures forall i :: 0 <= i < rounds - 1 ==> roundEnd(i) == ModalRemains
    ensures rounds < MaxModalRounds ==> roundEnd(rounds - 1) != ModalRemains
  {
    rounds := 0;
    while rounds < MaxModalRounds
      invariant rounds <= MaxModalRounds
      invariant forall i :: 0 <= i < rounds ==> roundEnd(i) == ModalRemains
    {
      var end := roundEnd(rounds);
      rounds := rounds + 1;
      if end != ModalRemains {
        return;
      }
    }
  }
}
