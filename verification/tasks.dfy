/**
 * `ScrapingTask`: the batch bookkeeping around the browser work. Each pending slug is marked
 * `processing`, gets a run row under the batch's run id, is visited, and ends as `done` or
 * as a failure status, with the run row closed accordingly. The browser work of one visit
 * is given as a `Visit` value: what each step observes or how it raises.
 */
module Tasks {
  import opened Wrappers
  import opened Retry
  import Dom
  import Expander
  import Validator
  import Shooter
  import Db
  import Text

  /** `@retry(stop=stop_after_attempt(3))` on `_navigate_to_page`. */
  const NavigationAttempts := 3

  /**
   * What visiting one article observes: whether the browser context and page open; the
   * outcome of each navigation attempt, the type of the exception a failed attempt raises
   * and the address tenacity shows for the last attempt's future; whether the session is
   * still authenticated; the page `_verify_expansion` sees after each expansion attempt and
   * the address of that retry's last future; the page `validate_page` sees; the header
   * candidates; whether creating the screenshot directory raises, whether the content-area
   * capture raises, and which section captures raise; and whether closing the page and
   * context raises.
   */
  datatype Visit = Visit(
    open: Outcome,
    navigation: nat -> Outcome,
    navigationRaises: nat -> string,
    navigationFuture: string,
    authenticated: bool,
    expansionPages: nat -> Dom.Page,
    expansionFuture: string,
    validationPage: Dom.Page,
    headers: seq<Shooter.Header>,
    makeDir: Outcome,
    areaCapture: Outcome,
    shotFails: nat -> bool,
    close: Outcome)

  /** The step of `process_slug` whose exception ended the visit. */
  datatype Stage = Opening | Navigating | Authenticating | Expanding | Validating | Capturing | Saving | Closing

  /** How `process_slug` ended: `(True, None)`, or `(False, str(e))` with the step that raised. */
  datatype SlugOutcome = Succeeded | FailedAt(stage: Stage, message: string)

  /** The tuple `process_slug` returns. */
  function AsTuple(o: SlugOutcome): (t: (bool, Option<string>))
    ensures t.0 <==> t.1.None?
    ensures t.0 <==> o.Succeeded?
  {
    match o
    case Succeeded => (true, None)
    case FailedAt(_, msg) => (false, Some(msg))
  }

  function OutcomeAsResult(o: Outcome): Result<()> {
    if o.Pass? then Success(()) else Failure(o.error)
  }

  /**
   * `_navigate_to_page` under its retry decorator: `raises(i)` is the type of the exception
   * attempt `i` raises, `future` the address shown for the last attempt's future.
   */
  function Navigate(navigation: nat -> Outcome, raises: nat -> string, future: string): (run: Retried<()>)
    ensures run.result.Success? <==> exists i :: 0 <= i < NavigationAttempts && navigation(i).Pass?
    ensures run.result.Failure? ==>
      run.result.error == RetryErrorText(future, raises(NavigationAttempts - 1))
  {
    var attempt := (i: nat) => OutcomeAsResult(navigation(i));
    assert forall i: nat :: attempt(i).Success? <==> navigation(i).Pass?;
    RetryUpTo(attempt, raises, future, NavigationAttempts)
  }

  /**
   * Python's `repr` of a list of strings, for items holding no quote or backslash: each
   * item is put between `'` as is. Python would switch to `"` for an item holding `'` and
   * escape backslashes; the messages built here ("Found N hidden sections") hold neither.
   */
  function ReprList(items: seq<string>): string {
    "[" + ReprItems(items) + "]"
  }

  function ReprItems(items: seq<string>): string {
    if items == [] then ""
    else if |items| == 1 then "'" + items[0] + "'"
    else "'" + items[0] + "', " + ReprItems(items[1..])
  }

  /** The message of the `ExpansionFailure` raised when validation does not pass. */
  function ValidationFailureMessage(report: Validator.PageReport): string {
    "Page validation failed: " + ReprList(report.errors)
  }

  /**
   * The steps of `process_slug` before the screenshots, in order: the first one that
   * raises decides the outcome; `Succeeded` means capture and saving are reached.
   */
  function Precheck(v: Visit): (o: SlugOutcome)
    ensures o.FailedAt? ==> o.stage != Saving
  {
    if v.open.Fail? then FailedAt(Opening, v.open.error)
    else
      var nav := Navigate(v.navigation, v.navigationRaises, v.navigationFuture);
      if nav.result.Failure? then FailedAt(Navigating, nav.result.error)
      else if !v.authenticated then FailedAt(Authenticating, "Authentication failed")
      else
        var expansion := Expander.FullyExpandAsWritten(v.expansionPages, v.expansionFuture);
        if expansion.outcome.Fail? then FailedAt(Expanding, expansion.outcome.error)
        else
          var report := Validator.PageReportOf(v.validationPage);
          if !report.validationPassed then FailedAt(Validating, ValidationFailureMessage(report))
          else Succeeded
  }

  /** The visit reaches the screenshots exactly when every earlier step passes. */
  lemma PrecheckPasses(v: Visit)
    ensures Precheck(v).Succeeded? <==>
      v.open.Pass? && Navigate(v.navigation, v.navigationRaises, v.navigationFuture).result.Success? &&
      v.authenticated && Expander.ExpansionSettles(v.expansionPages) &&
      Validator.PageReportOf(v.validationPage).validationPassed
  {
  }

  /**
   * Four failed expansion checks end the visit with the text of tenacity's `RetryError`,
   * which names `ExpansionFailure` and not how many sections stayed hidden.
   */
  lemma PrecheckExpansion(v: Visit)
    ensures Precheck(v).FailedAt? && Precheck(v).stage == Expanding <==>
      v.open.Pass? && Navigate(v.navigation, v.navigationRaises, v.navigationFuture).result.Success? &&
      v.authenticated && !Expander.ExpansionSettles(v.expansionPages)
    ensures Precheck(v).FailedAt? && Precheck(v).stage == Expanding ==>
      Precheck(v).message == RetryErrorText(v.expansionFuture, Expander.ExpansionFailureType)
  {
  }

  /** A stale session stops the visit with "Authentication failed" once navigation works. */
  lemma PrecheckAuthentication(v: Visit)
    ensures Precheck(v) == FailedAt(Authenticating, "Authentication failed") <==>
      v.open.Pass? && Navigate(v.navigation, v.navigationRaises, v.navigationFuture).result.Success? &&
      !v.authenticated
  {
  }

  /**
   * Validation fails the visit exactly when every earlier step passed and a hidden section
   * is still visible, and the message names how many.
   */
  lemma PrecheckValidation(v: Visit)
    ensures Precheck(v).FailedAt? && Precheck(v).stage == Validating <==>
      v.open.Pass? && Navigate(v.navigation, v.navigationRaises, v.navigationFuture).result.Success? &&
      v.authenticated && Expander.ExpansionSettles(v.expansionPages) &&
      Dom.VisibleTotal(v.validationPage, Validator.HiddenSelectors) > 0
    ensures Precheck(v).FailedAt? && Precheck(v).stage == Validating ==>
      Precheck(v).message == "Page validation failed: " +
        ReprList(["Found " + Text.NatToString(Dom.VisibleTotal(v.validationPage, Validator.HiddenSelectors)) + " hidden sections"])
  {
    var report := Validator.PageReportOf(v.validationPage);
    var n := Dom.VisibleTotal(v.validationPage, Validator.HiddenSelectors);
    assert report.validationPassed <==> n == 0;
    assert n > 0 ==> report.errors == ["Found " + Text.NatToString(n) + " hidden sections"];
  }

  /** What `shoot_sections` raises on this visit, if anything. */
  function Captured(v: Visit): Outcome {
    Shooter.ShootOutcome(v.headers, v.makeDir, v.areaCapture)
  }

  /**
   * How a visit ends when saving the rows cannot fail: the first step that raises decides,
   * except that once the page is open, an exception while closing it in the `finally`
   * replaces whatever the body returned or raised.
   */
  function VisitOutcome(v: Visit): (o: SlugOutcome)
    ensures o.FailedAt? ==> o.stage != Saving
    ensures o.Succeeded? <==> Precheck(v).Succeeded? && Captured(v).Pass? && v.close.Pass?
    ensures v.open.Fail? ==> o == Precheck(v)
    ensures v.open.Pass? && v.close.Fail? ==> o == FailedAt(Closing, v.close.error)
    ensures v.close.Pass? && Precheck(v).FailedAt? ==> o == Precheck(v)
    ensures v.close.Pass? && Precheck(v).Succeeded? && Captured(v).Fail? ==> o == FailedAt(Capturing, Captured(v).error)
  {
    var pre := Precheck(v);
    if v.open.Fail? then pre
    else if v.close.Fail? then FailedAt(Closing, v.close.error)
    else if pre.FailedAt? then pre
    else if Captured(v).Fail? then FailedAt(Capturing, Captured(v).error)
    else Succeeded
  }

  /**
   * How a visit ends given what it observes: a failure `VisitOutcome` foresees is the
   * outcome, and otherwise the visit succeeds or fails while saving.
   */
  predicate Follows(expected: SlugOutcome, o: SlugOutcome) {
    if expected.FailedAt? then o == expected else o.Succeeded? || o.stage == Saving
  }

  /** The foreseen outcomes of a list of slugs, each visited as `visits` says. */
  function VisitOutcomes(slugs: seq<string>, visits: string -> Visit): (pres: seq<SlugOutcome>)
    ensures |pres| == |slugs|
  {
    if slugs == [] then []
    else VisitOutcomes(slugs[..|slugs| - 1], visits) + [VisitOutcome(visits(slugs[|slugs| - 1]))]
  }

  /** Entry `k` is the foreseen outcome of slug `k`. */
  lemma {:induction false} VisitOutcomesAt(slugs: seq<string>, visits: string -> Visit, k: nat)
    requires k < |slugs|
    ensures VisitOutcomes(slugs, visits)[k] == VisitOutcome(visits(slugs[k]))
  {
    if k < |slugs| - 1 {
      VisitOutcomesAt(slugs[..|slugs| - 1], visits, k);
    }
  }

  /** Each outcome follows from what its visit observes. */
  predicate AllFollow(pres: seq<SlugOutcome>, outcomes: seq<SlugOutcome>) {
    |pres| == |outcomes| &&
    (pres == [] ||
     (AllFollow(pres[..|pres| - 1], outcomes[..|outcomes| - 1]) && Follows(pres[|pres| - 1], outcomes[|outcomes| - 1])))
  }

  /** The same, position by position. */
  lemma {:induction false} AllFollowAt(pres: seq<SlugOutcome>, outcomes: seq<SlugOutcome>)
    requires |pres| == |outcomes|
    ensures AllFollow(pres, outcomes) <==> forall k :: 0 <= k < |pres| ==> Follows(pres[k], outcomes[k])
  {
    if pres != [] {
      var n := |pres| - 1;
      AllFollowAt(pres[..n], outcomes[..n]);
      assert forall k :: 0 <= k < n ==> pres[..n][k] == pres[k] && outcomes[..n][k] == outcomes[k];
    }
  }

  /** No visit failed while saving. */
  predicate NoSavingFailure(outcomes: seq<SlugOutcome>) {
    outcomes == [] ||
    (NoSavingFailure(outcomes[..|outcomes| - 1]) && !(outcomes[|outcomes| - 1].FailedAt? && outcomes[|outcomes| - 1].stage == Saving))
  }

  /** Outcomes that follow their visits and never failed while saving are the foreseen outcomes. */
  lemma {:induction false} FollowsExactly(pres: seq<SlugOutcome>, outcomes: seq<SlugOutcome>)
    requires AllFollow(pres, outcomes) && NoSavingFailure(outcomes)
    ensures outcomes == pres
  {
    if pres != [] {
      var n := |pres| - 1;
      FollowsExactly(pres[..n], outcomes[..n]);
      assert pres == pres[..n] + [pres[n]] && outcomes == outcomes[..n] + [outcomes[n]];
    }
  }

  /** The status the batch loop writes after a visit: every failure is an expansion failure. */
  function StatusAfterAsWritten(o: SlugOutcome): (status: string)
    ensures status in Db.Statuses
    ensures status != "failed_validation"
    ensures status == "done" <==> o.Succeeded?
  {
    if o.Succeeded? then "done" else "failed_expansion"
  }

  /** A visit that failed validation is still recorded as an expansion failure. */
  lemma ValidationFailureRecordedAsExpansion(v: Visit)
    requires v.close.Pass? && Precheck(v).FailedAt? && Precheck(v).stage == Validating
    ensures VisitOutcome(v).FailedAt? && VisitOutcome(v).stage == Validating
    ensures StatusAfterAsWritten(VisitOutcome(v)) == "failed_expansion"
    ensures StatusAfter(VisitOutcome(v)) == "failed_validation"
  {
  }

  /** The status recorded after a visit as intended, with a validation failure recorded as such. */
  function StatusAfter(o: SlugOutcome): (status: string)
    ensures status in Db.Statuses
    ensures status == "done" <==> o.Succeeded?
    ensures status == "failed_validation" <==> o.FailedAt? && o.stage == Validating
    ensures status == "failed_expansion" <==> o.FailedAt? && o.stage != Validating
  {
    if o.Succeeded? then "done"
    else if o.stage == Validating then "failed_validation"
    else "failed_expansion"
  }

  /**
   * The `urls` row of a processed slug as the batch loop leaves it: `done` or
   * `failed_expansion`, and a non-empty error recorded and counted.
   */
  function Settled(was: Db.UrlRow, o: SlugOutcome): (row: Db.UrlRow)
    ensures row.url == was.url
    ensures row.status == "done" <==> o.Succeeded?
    ensures o.FailedAt? ==> row.status == "failed_expansion"
    ensures o.FailedAt? && o.message != "" ==>
      row.lastError == Some(o.message) && row.retryCount == was.retryCount + 1
    ensures !(o.FailedAt? && o.message != "") ==>
      row.lastError == was.lastError && row.retryCount == was.retryCount
  {
    Db.StatusUpdated(Db.StatusUpdated(was, "processing", None), StatusAfterAsWritten(o), AsTuple(o).1)
  }

  /** The `urls` row of a processed slug as intended: a validation failure is recorded as such. */
  function SettledAsIntended(was: Db.UrlRow, o: SlugOutcome): (row: Db.UrlRow)
    ensures row.url == was.url
    ensures row.status == "done" <==> o.Succeeded?
    ensures row.status == "failed_validation" <==> o.FailedAt? && o.stage == Validating
    ensures row.lastError == Settled(was, o).lastError && row.retryCount == Settled(was, o).retryCount
  {
    Db.StatusUpdated(Db.StatusUpdated(was, "processing", None), StatusAfter(o), AsTuple(o).1)
  }

  /** The written row is the intended one exactly when the visit did not fail validation. */
  lemma SettledAsIntendedUnlessValidation(was: Db.UrlRow, o: SlugOutcome)
    ensures Settled(was, o) == SettledAsIntended(was, o) <==> !(o.FailedAt? && o.stage == Validating)
  {
    if o.FailedAt? && o.stage == Validating {
      assert Settled(was, o).status != SettledAsIntended(was, o).status;
    }
  }

  /** The closed run row: `ok` is the outcome and `error_msg` its message. */
  function RunAfter(o: SlugOutcome): (row: Db.RunRow)
    ensures row.finished && row.ok == Some(o.Succeeded?)
    ensures row.errorMsg == AsTuple(o).1
  {
    Db.RunRow(true, Some(o.Succeeded?), if o.Succeeded? then None else Some(o.message))
  }

  /** The image rows for a list of screenshot tuples. */
  function ImageRows(runId: string, slug: string, shots: seq<Shooter.Shot>): (rows: seq<Db.ImageRow>)
    ensures |rows| == |shots|
  {
    if shots == [] then []
    else
      var last := shots[|shots| - 1];
      ImageRows(runId, slug, shots[..|shots| - 1]) + [Db.ImageRow(runId, slug, last.filename, last.index, last.title)]
  }

  /** Row `k` records tuple `k` under the run and slug. */
  lemma {:induction false} ImageRowsAt(runId: string, slug: string, shots: seq<Shooter.Shot>, k: nat)
    requires k < |shots|
    ensures ImageRows(runId, slug, shots)[k] == Db.ImageRow(runId, slug, shots[k].filename, shots[k].index, shots[k].title)
  {
    if k < |shots| - 1 {
      ImageRowsAt(runId, slug, shots[..|shots| - 1], k);
    }
  }

  /** Saving one more tuple appends its row. */
  lemma ImageRowsStep(runId: string, slug: string, shots: seq<Shooter.Shot>, i: nat)
    requires i < |shots|
    ensures ImageRows(runId, slug, shots[..i + 1]) ==
      ImageRows(runId, slug, shots[..i]) + [Db.ImageRow(runId, slug, shots[i].filename, shots[i].index, shots[i].title)]
  {
    assert shots[..i + 1][..i] == shots[..i];
  }

  /** Indices rise strictly, so no two tuples share one. */
  predicate AscendingIndices(shots: seq<Shooter.Shot>) {
    forall k, l :: 0 <= k < l < |shots| ==> shots[k].index < shots[l].index
  }

  /** No image row of this run and slug exists yet. */
  predicate NoImagesFor(images: seq<Db.ImageRow>, runId: string, slug: string) {
    forall i :: 0 <= i < |images| ==> !(images[i].runId == runId && images[i].slug == slug)
  }

  /** The status changes one processed slug makes: `processing`, then its final status. */
  function SlugLog(slug: string, o: SlugOutcome): seq<(string, string)> {
    [(slug, "processing"), (slug, StatusAfterAsWritten(o))]
  }

  function BatchLog(slugs: seq<string>, outcomes: seq<SlugOutcome>): seq<(string, string)>
    requires |slugs| == |outcomes|
  {
    if slugs == [] then []
    else
      BatchLog(slugs[..|slugs| - 1], outcomes[..|outcomes| - 1]) +
        SlugLog(slugs[|slugs| - 1], outcomes[|outcomes| - 1])
  }

  /** How many visits succeeded. */
  function SuccessCount(outcomes: seq<SlugOutcome>): (n: nat)
    ensures n <= |outcomes|
  {
    if outcomes == [] then 0
    else SuccessCount(outcomes[..|outcomes| - 1]) + (if outcomes[|outcomes| - 1].Succeeded? then 1 else 0)
  }

  lemma {:induction false} SuccessCountAll(outcomes: seq<SlugOutcome>)
    ensures SuccessCount(outcomes) == |outcomes| <==> forall k :: 0 <= k < |outcomes| ==> outcomes[k].Succeeded?
  {
    if outcomes != [] {
      var init := outcomes[..|outcomes| - 1];
      SuccessCountAll(init);
      assert forall k :: 0 <= k < |init| ==> init[k] == outcomes[k];
    }
  }

  // ---------------------------------------------------------------- the tables after a batch

  /** The `urls` table after the batch loop settled `slugs` in order with their outcomes. */
  function SettleAll(urls: map<string, Db.UrlRow>, slugs: seq<string>, outcomes: seq<SlugOutcome>): (r: map<string, Db.UrlRow>)
    requires |slugs| == |outcomes|
    ensures forall s :: s in r <==> s in urls
  {
    if slugs == [] then urls
    else
      var m := SettleAll(urls, slugs[..|slugs| - 1], outcomes[..|outcomes| - 1]);
      var s := slugs[|slugs| - 1];
      if s in m then m[s := Settled(m[s], outcomes[|outcomes| - 1])] else m
  }

  /** Settling distinct slugs gives each one its settled row and leaves every other row as it was. */
  lemma {:induction false} SettleAllEffect(urls: map<string, Db.UrlRow>, slugs: seq<string>, outcomes: seq<SlugOutcome>)
    requires |slugs| == |outcomes| && Db.Distinct(slugs)
    ensures forall k :: 0 <= k < |slugs| && slugs[k] in urls ==>
      SettleAll(urls, slugs, outcomes)[slugs[k]] == Settled(urls[slugs[k]], outcomes[k])
    ensures forall s :: s in urls && s !in slugs ==> SettleAll(urls, slugs, outcomes)[s] == urls[s]
  {
    if slugs != [] {
      var n := |slugs| - 1;
      var init := slugs[..n];
      var prior := outcomes[..n];
      var last := slugs[n];
      var m := SettleAll(urls, init, prior);
      assert Db.Distinct(init) && last !in init;
      SettleAllEffect(urls, init, prior);
      assert SettleAll(urls, slugs, outcomes) == if last in m then m[last := Settled(m[last], outcomes[n])] else m;
      forall k | 0 <= k < |slugs| && slugs[k] in urls
        ensures SettleAll(urls, slugs, outcomes)[slugs[k]] == Settled(urls[slugs[k]], outcomes[k])
      {
        if k < n {
          assert slugs[k] == init[k] && prior[k] == outcomes[k];
          assert init[k] in init;
        } else {
          assert slugs[k] == last && last in m;
          assert m[last] == urls[last];
        }
      }
      forall s | s in urls && s !in slugs
        ensures SettleAll(urls, slugs, outcomes)[s] == urls[s]
      {
        forall j | 0 <= j < n ensures init[j] != s {
          assert init[j] == slugs[j];
        }
        assert s != last && s in m;
        assert m[s] == urls[s];
      }
    }
  }

  /**
   * After a batch of distinct slugs, each of them is `done` exactly when its visit succeeded
   * and `failed_expansion` otherwise; none is left `failed_validation`.
   */
  lemma BatchStatuses(urls: map<string, Db.UrlRow>, slugs: seq<string>, outcomes: seq<SlugOutcome>)
    requires |slugs| == |outcomes| && Db.Distinct(slugs)
    requires forall k :: 0 <= k < |slugs| ==> slugs[k] in urls
    ensures forall k :: 0 <= k < |slugs| ==>
      slugs[k] in SettleAll(urls, slugs, outcomes) &&
      (SettleAll(urls, slugs, outcomes)[slugs[k]].status == "done" <==> outcomes[k].Succeeded?) &&
      (outcomes[k].FailedAt? ==> SettleAll(urls, slugs, outcomes)[slugs[k]].status == "failed_expansion") &&
      SettleAll(urls, slugs, outcomes)[slugs[k]].status != "failed_validation"
  {
    SettleAllEffect(urls, slugs, outcomes);
  }

  /** The `runs` table after the batch closed the run of each of `slugs` with its outcome. */
  function CloseAll(runs: map<(string, string), Db.RunRow>, runId: string, slugs: seq<string>, outcomes: seq<SlugOutcome>)
    : (r: map<(string, string), Db.RunRow>)
    requires |slugs| == |outcomes|
    ensures forall key :: key in r <==> key in runs || (key.0 == runId && key.1 in slugs)
  {
    if slugs == [] then runs
    else
      var n := |slugs| - 1;
      assert forall s :: s in slugs <==> s in slugs[..n] || s == slugs[n];
      CloseAll(runs, runId, slugs[..n], outcomes[..n])[(runId, slugs[n]) := RunAfter(outcomes[n])]
  }

  /** Each slug of the batch ends with its closed run; runs of other ids or slugs are as they were. */
  lemma {:induction false} CloseAllEffect(runs: map<(string, string), Db.RunRow>, runId: string, slugs: seq<string>,
    outcomes: seq<SlugOutcome>)
    requires |slugs| == |outcomes| && Db.Distinct(slugs)
    ensures forall k :: 0 <= k < |slugs| ==> CloseAll(runs, runId, slugs, outcomes)[(runId, slugs[k])] == RunAfter(outcomes[k])
    ensures forall key :: key in runs && !(key.0 == runId && key.1 in slugs) ==>
      CloseAll(runs, runId, slugs, outcomes)[key] == runs[key]
  {
    if slugs != [] {
      var n := |slugs| - 1;
      var init := slugs[..n];
      assert Db.Distinct(init);
      CloseAllEffect(runs, runId, init, outcomes[..n]);
      assert forall s :: s in slugs <==> s in init || s == slugs[n];
      assert slugs[n] !in init;
      forall k | 0 <= k < n
        ensures slugs[k] == init[k] && slugs[k] != slugs[n] && outcomes[..n][k] == outcomes[k]
      {
        assert init[k] in init;
      }
    }
  }

  /** One more pass of the batch loop extends each table by that slug's changes. */
  lemma BatchStep(urls: map<string, Db.UrlRow>, runs: map<(string, string), Db.RunRow>, runId: string,
    slugs: seq<string>, outcomes: seq<SlugOutcome>, i: nat, o: SlugOutcome)
    requires i < |slugs| && |outcomes| == i
    ensures var m := SettleAll(urls, slugs[..i], outcomes);
      SettleAll(urls, slugs[..i + 1], outcomes + [o]) ==
        if slugs[i] in m then m[slugs[i] := Settled(m[slugs[i]], o)] else m
    ensures CloseAll(runs, runId, slugs[..i + 1], outcomes + [o]) ==
      CloseAll(runs, runId, slugs[..i], outcomes)[(runId, slugs[i]) := RunAfter(o)]
    ensures BatchLog(slugs[..i + 1], outcomes + [o]) == BatchLog(slugs[..i], outcomes) + SlugLog(slugs[i], o)
    ensures SuccessCount(outcomes + [o]) == SuccessCount(outcomes) + if o.Succeeded? then 1 else 0
  {
    assert slugs[..i + 1][..i] == slugs[..i];
    assert (outcomes + [o])[..i] == outcomes;
  }

  /** No row of `runs` belongs to the run `runId` yet, as for a freshly generated run id. */
  ghost predicate RunIdUnused(runs: map<(string, string), Db.RunRow>, runId: string) {
    forall key :: key in runs ==> key.0 != runId
  }

  /** A run id no earlier run used gives each slug of the batch a new run key. */
  lemma FreshRunKey(runs: map<(string, string), Db.RunRow>, runId: string, slugs: seq<string>,
    outcomes: seq<SlugOutcome>, i: nat)
    requires i < |slugs| && |outcomes| == i && Db.Distinct(slugs)
    requires RunIdUnused(runs, runId)
    ensures (runId, slugs[i]) !in CloseAll(runs, runId, slugs[..i], outcomes)
  {
    Db.DistinctIndices(slugs);
    assert forall k :: 0 <= k < i ==> slugs[..i][k] != slugs[i];
  }

  /** The tables after a batch has settled `slugs` with `outcomes`, starting from `urls0`, `runs0` and `log0`. */
  ghost predicate BatchSoFar(urls: map<string, Db.UrlRow>, runs: map<(string, string), Db.RunRow>,
    log: seq<(string, string)>, urls0: map<string, Db.UrlRow>, runs0: map<(string, string), Db.RunRow>,
    log0: seq<(string, string)>, runId: string, slugs: seq<string>, outcomes: seq<SlugOutcome>)
    requires |slugs| == |outcomes|
  {
    urls == SettleAll(urls0, slugs, outcomes) && runs == CloseAll(runs0, runId, slugs, outcomes) &&
    log == log0 + BatchLog(slugs, outcomes)
  }

  /**
   * The batch loop's state after `i` slugs: the tables hold their rows, no image row was
   * dropped, each outcome follows its visit, and a new run id saw no saving failure.
   */
  ghost predicate RowsSoFar(urls: map<string, Db.UrlRow>, runs: map<(string, string), Db.RunRow>,
    log: seq<(string, string)>, images: seq<Db.ImageRow>, urls0: map<string, Db.UrlRow>,
    runs0: map<(string, string), Db.RunRow>, log0: seq<(string, string)>, images0: seq<Db.ImageRow>,
    runId: string, slugs: seq<string>, pres: seq<SlugOutcome>, i: nat, outcomes: seq<SlugOutcome>)
  {
    i <= |slugs| && |outcomes| == i &&
    BatchSoFar(urls, runs, log, urls0, runs0, log0, runId, slugs[..i], outcomes) &&
    images0 <= images && i <= |pres| && AllFollow(pres[..i], outcomes) &&
    (RunIdUnused(runs0, runId) ==> NoSavingFailure(outcomes))
  }

  /** Once every slug was processed, the loop's state is the batch's final state. */
  lemma RowsDone(urls: map<string, Db.UrlRow>, runs: map<(string, string), Db.RunRow>,
    log: seq<(string, string)>, images: seq<Db.ImageRow>, urls0: map<string, Db.UrlRow>,
    runs0: map<(string, string), Db.RunRow>, log0: seq<(string, string)>, images0: seq<Db.ImageRow>,
    runId: string, slugs: seq<string>, pres: seq<SlugOutcome>, outcomes: seq<SlugOutcome>)
    requires |pres| == |slugs|
    requires RowsSoFar(urls, runs, log, images, urls0, runs0, log0, images0, runId, slugs, pres, |slugs|, outcomes)
    ensures |outcomes| == |slugs|
    ensures BatchSoFar(urls, runs, log, urls0, runs0, log0, runId, slugs, outcomes)
    ensures images0 <= images && AllFollow(pres, outcomes)
    ensures RunIdUnused(runs0, runId) ==> NoSavingFailure(outcomes)
  {
    assert slugs[..|slugs|] == slugs && pres[..|pres|] == pres;
  }

  /** The next visit's outcome follows from what its visit observes. */
  lemma FollowStep(pres: seq<SlugOutcome>, outcomes: seq<SlugOutcome>, i: nat, o: SlugOutcome)
    requires i < |pres| && AllFollow(pres[..i], outcomes) && Follows(pres[i], o)
    ensures pres[..i + 1] == pres[..i] + [pres[i]]
    ensures AllFollow(pres[..i + 1], outcomes + [o])
  {
    assert pres[..i + 1] == pres[..i] + [pres[i]];
    assert pres[..i + 1][..i] == pres[..i] && (outcomes + [o])[..i] == outcomes;
  }

  lemma PrefixAppend<T>(a: seq<T>, b: seq<T>, c: seq<T>)
    requires a <= b
    ensures a <= b + c
  {
  }

  /** The `urls` table after each of `slugs` was set back to `pending`, status only. */
  function ResetAll(urls: map<string, Db.UrlRow>, slugs: seq<string>): (r: map<string, Db.UrlRow>)
    ensures r.Keys == urls.Keys
  {
    if slugs == [] then urls
    else
      var m := ResetAll(urls, slugs[..|slugs| - 1]);
      var s := slugs[|slugs| - 1];
      if s in m then m[s := Db.StatusUpdated(m[s], "pending", None)] else m
  }

  /** A reset row keeps its url, last error and retry count; rows not named are as they were. */
  lemma {:induction false} ResetAllEffect(urls: map<string, Db.UrlRow>, slugs: seq<string>)
    ensures forall s :: s in urls && s in slugs ==>
      ResetAll(urls, slugs)[s] == Db.UrlRow(urls[s].url, "pending", urls[s].lastError, urls[s].retryCount)
    ensures forall s :: s in urls && s !in slugs ==> ResetAll(urls, slugs)[s] == urls[s]
  {
    if slugs != [] {
      var init := slugs[..|slugs| - 1];
      ResetAllEffect(urls, init);
      assert forall s :: s in slugs <==> s in init || s == slugs[|slugs| - 1];
    }
  }

  /**
   * After resetting the failed slugs, each of them is pending, and a pending row was pending
   * or failed before.
   */
  lemma ResetPending(urls: map<string, Db.UrlRow>, slugs: seq<string>)
    requires forall k :: 0 <= k < |slugs| ==>
      slugs[k] in urls && urls[slugs[k]].status in {"failed_expansion", "failed_validation"}
    ensures var r := ResetAll(urls, slugs);
      forall s :: s in slugs ==> s in r && r[s].status == "pending"
    ensures var r := ResetAll(urls, slugs);
      forall s :: s in r && r[s].status == "pending" ==>
        s in urls && urls[s].status in {"pending", "failed_expansion", "failed_validation"}
  {
    var r := ResetAll(urls, slugs);
    ResetAllEffect(urls, slugs);
    forall s | s in slugs ensures s in r && r[s].status == "pending" {
      var k :| 0 <= k < |slugs| && slugs[k] == s;
    }
    forall s | s in r && r[s].status == "pending"
      ensures s in urls && urls[s].status in {"pending", "failed_expansion", "failed_validation"}
    {
      if s in slugs {
        var k :| 0 <= k < |slugs| && slugs[k] == s;
      }
    }
  }

  /** The status changes of the reset loop. */
  function ResetLog(slugs: seq<string>): (log: seq<(string, string)>)
    ensures |log| == |slugs| && forall k :: 0 <= k < |slugs| ==> log[k] == (slugs[k], "pending")
  {
    seq(|slugs|, k requires 0 <= k < |slugs| => (slugs[k], "pending"))
  }

  /** What `process_pending_urls` returns. */
  datatype BatchResult = BatchResult(processed: nat, successful: nat, failed: nat, runId: Option<string>)

  /** What `retry_failed_urls` returns: the `retried` dictionary, or the batch's. */
  datatype RetryResult = NothingToRetry | RetriedBatch(batch: BatchResult)

  /**
   * The state after saving stopped: the first `saved` tuples have their rows, and the
   * outcome is a failure exactly when not all were saved, with the insert's error.
   */
  ghost predicate Saved(store: Db.DatabaseManager, before: seq<Db.ImageRow>, runId: string, slug: string,
    shots: seq<Shooter.Shot>, o: Outcome, saved: nat)
    reads store
  {
    store.Valid() && saved <= |shots| &&
    store.images == before + ImageRows(runId, slug, shots[..saved]) &&
    (o.Pass? <==> saved == |shots|) &&
    (o.Fail? ==> o.error == Db.UniqueImageError || o.error == Db.ForeignKeyError)
  }

  /** Before tuple `i` is saved, its key is free when the run had no rows and indices rise. */
  lemma KeyFree(before: seq<Db.ImageRow>, runId: string, slug: string, shots: seq<Shooter.Shot>, i: nat)
    requires NoImagesFor(before, runId, slug) && AscendingIndices(shots) && i < |shots|
    ensures var images := before + ImageRows(runId, slug, shots[..i]);
      forall j :: 0 <= j < |images| ==>
        !(images[j].runId == runId && images[j].slug == slug && images[j].idx == shots[i].index)
  {
    var images := before + ImageRows(runId, slug, shots[..i]);
    forall j | 0 <= j < |images|
      ensures !(images[j].runId == runId && images[j].slug == slug && images[j].idx == shots[i].index)
    {
      if j >= |before| {
        ImageRowsAt(runId, slug, shots[..i], j - |before|);
      }
    }
  }

  /** One `add_image` of the loop: tuple `i` gets its row, or the insert raises and nothing changes. */
  method SaveShot(store: Db.DatabaseManager, slug: string, runId: string, shots: seq<Shooter.Shot>, i: nat,
    ghost before: seq<Db.ImageRow>)
    returns (o: Outcome)
    requires store.Valid() && i < |shots|
    requires store.images == before + ImageRows(runId, slug, shots[..i])
    modifies store`images
    ensures store.Valid()
    ensures store.images == before + ImageRows(runId, slug, shots[..if o.Pass? then i + 1 else i])
    ensures o.Fail? ==> o.error == Db.UniqueImageError || o.error == Db.ForeignKeyError
    ensures ((runId, slug) in store.runs && NoImagesFor(before, runId, slug) && AscendingIndices(shots)) ==> o.Pass?
  {
    var shot := shots[i];
    if (runId, slug) in store.runs && NoImagesFor(before, runId, slug) && AscendingIndices(shots) {
      KeyFree(before, runId, slug, shots, i);
    }
    o := store.AddImage(runId, slug, shot.filename, shot.index, shot.title);
    if o.Pass? {
      ImageRowsStep(runId, slug, shots, i);
      AppendAssoc(before, ImageRows(runId, slug, shots[..i]),
        [Db.ImageRow(runId, slug, shot.filename, shot.index, shot.title)]);
    }
  }

  /** The loop of `_save_results` on an open store. */
  method SaveShots(store: Db.DatabaseManager, slug: string, runId: string, shots: seq<Shooter.Shot>)
    returns (o: Outcome, ghost saved: nat)
    requires store.Valid()
    modifies store`images
    ensures Saved(store, old(store.images), runId, slug, shots, o, saved)
    ensures ((runId, slug) in old(store.runs) && NoImagesFor(old(store.images), runId, slug) &&
      AscendingIndices(shots)) ==> o.Pass?
  {
    o := Pass;
    saved := 0;
    ghost var before := store.images;
    var i := 0;
    while i < |shots|
      invariant 0 <= i <= |shots| && saved == i
      invariant store.Valid() && o.Pass?
      invariant store.images == before + ImageRows(runId, slug, shots[..i])
    {
      var added := SaveShot(store, slug, runId, shots, i, before);
      if added.Fail? {
        o := added;
        return;
      }
      i := i + 1;
      saved := i;
    }
    assert shots[..i] == shots;
  }

  lemma AppendAssoc<T>(a: seq<T>, b: seq<T>, c: seq<T>)
    ensures a + b + c == a + (b + c)
  {
  }

  /** A second update of the same key overrides the first. */
  lemma UpdateTwice<K, V>(m: map<K, V>, k: K, a: V, b: V)
    ensures m[k := a][k := b] == m[k := b]
  {
  }

  /** The start of one pass of the batch loop: mark the slug `processing` and open its run. */
  method OpenSlug(store: Db.DatabaseManager, slug: string, runId: string) returns (started: bool)
    requires store.Valid() && slug in store.urls
    modifies store`urls, store`statusLog, store`runs
    ensures store.Valid()
    ensures store.urls == old(store.urls)[slug := Db.StatusUpdated(old(store.urls)[slug], "processing", None)]
    ensures store.statusLog == old(store.statusLog) + [(slug, "processing")]
    ensures started <==> (runId, slug) !in old(store.runs)
    ensures store.runs == if started then old(store.runs)[(runId, slug) := Db.RunRow(false, None, None)] else old(store.runs)
    ensures started ==> NoImagesFor(store.images, runId, slug)
  {
    var marked := store.UpdateUrlStatus(slug, "processing", None);
    started := store.StartRun(runId, slug);
    if started {
      forall i | 0 <= i < |store.images| ensures !(store.images[i].runId == runId && store.images[i].slug == slug) {
        assert (store.images[i].runId, store.images[i].slug) in old(store.runs);
      }
    }
  }

  /** The end of one pass of the batch loop: the final status and the closed run. */
  method RecordOutcome(store: Db.DatabaseManager, slug: string, runId: string, o: SlugOutcome)
    requires store.Valid() && slug in store.urls && (runId, slug) in store.runs
    modifies store`urls, store`statusLog, store`runs
    ensures store.Valid()
    ensures store.urls == old(store.urls)[slug := Db.StatusUpdated(old(store.urls)[slug], StatusAfterAsWritten(o), AsTuple(o).1)]
    ensures store.statusLog == old(store.statusLog) + [(slug, StatusAfterAsWritten(o))]
    ensures store.runs == old(store.runs)[(runId, slug) := RunAfter(o)]
  {
    var tuple := AsTuple(o);
    if tuple.0 {
      var done := store.UpdateUrlStatus(slug, "done", None);
      store.FinishRun(runId, slug, true, None);
    } else {
      var failed := store.UpdateUrlStatus(slug, "failed_expansion", tuple.1);
      store.FinishRun(runId, slug, false, tuple.1);
    }
  }

  /** One more pass of the reset loop resets one more slug and logs it. */
  lemma ResetStep(urls: map<string, Db.UrlRow>, slugs: seq<string>, i: nat)
    requires i < |slugs|
    ensures var m := ResetAll(urls, slugs[..i]);
      ResetAll(urls, slugs[..i + 1]) ==
        if slugs[i] in m then m[slugs[i] := Db.StatusUpdated(m[slugs[i]], "pending", None)] else m
    ensures ResetLog(slugs[..i + 1]) == ResetLog(slugs[..i]) + [(slugs[i], "pending")]
  {
    assert slugs[..i + 1][..i] == slugs[..i];
  }

  /** The reset loop of `retry_failed_urls`: each failed slug goes back to `pending`, status only. */
  method ResetFailed(store: Db.DatabaseManager, slugs: seq<string>)
    requires store.Valid() && forall s :: s in slugs ==> s in store.urls
    modifies store`urls, store`statusLog
    ensures store.Valid()
    ensures store.urls == ResetAll(old(store.urls), slugs)
    ensures store.statusLog == old(store.statusLog) + ResetLog(slugs)
  {
    var i := 0;
    while i < |slugs|
      invariant 0 <= i <= |slugs| && store.Valid()
      invariant store.urls == ResetAll(old(store.urls), slugs[..i])
      invariant store.statusLog == old(store.statusLog) + ResetLog(slugs[..i])
    {
      var reset := store.UpdateUrlStatus(slugs[i], "pending", None);
      ResetStep(old(store.urls), slugs, i);
      i := i + 1;
    }
    assert slugs[..i] == slugs;
  }

  /**
   * The first half of `retry_failed_urls`: fetch the failed rows and reset each to `pending`.
   * The batch that follows, limited to their number, then fills up with pending rows.
   */
  method FetchAndResetFailed(store: Db.DatabaseManager)
    returns (failed: seq<(string, string, Option<string>)>, slugs: seq<string>)
    requires store.Valid()
    modifies store`urls, store`statusLog
    ensures store.Valid()
    ensures failed == old(store.FailedUrls()) && slugs == Db.FailedSlugs(failed)
    ensures store.urls == ResetAll(old(store.urls), slugs)
    ensures store.statusLog == old(store.statusLog) + ResetLog(slugs)
    ensures failed != [] ==> |store.PendingUrls(Some(|failed|))| == |failed|
    ensures forall s :: s in store.urls && store.urls[s].status == "pending" ==>
      s in old(store.urls) && old(store.urls)[s].status in {"pending", "failed_expansion", "failed_validation"}
  {
    failed := store.FailedUrls();
    slugs := Db.FailedSlugs(failed);
    Db.FailedUrlsDistinct(store);
    ghost var urls0 := store.urls;
    ResetFailed(store, slugs);
    ResetPending(urls0, slugs);
    if failed != [] {
      Db.PendingUrlsFilled(store, slugs);
    }
  }

  class ScrapingTask {
    /** The store of the batch in progress; `None` until a batch opens one. */
    var db: Db.DatabaseManager?

    constructor ()
      ensures db == null
    {
      db := null;
    }

    /**
     * `_save_results`: one `add_image` per tuple, in order. An insert that raises stops
     * the loop and reaches the caller; without a store nothing happens.
     */
    method SaveResults(slug: string, runId: string, shots: seq<Shooter.Shot>) returns (o: Outcome, ghost saved: nat)
      requires db != null ==> db.Valid()
      modifies (if db == null then {} else {db})`images
      ensures db == null ==> o.Pass? && saved == 0
      ensures db != null ==> Saved(db, old(db.images), runId, slug, shots, o, saved)
      ensures (db != null && (runId, slug) in old(db.runs) &&
        NoImagesFor(old(db.images), runId, slug) && AscendingIndices(shots)) ==> o.Pass?
    {
      if db == null {
        o := Pass;
        saved := 0;
      } else {
        o, saved := SaveShots(db, slug, runId, shots);
      }
    }

    /**
     * `process_slug`: the checks of `Precheck`, then the screenshots and their rows, with the
     * page and context closed in a `finally` once they are open. Any exception ends the
     * visit with its message.
     */
    method ProcessSlug(slug: string, runId: string, v: Visit) returns (o: SlugOutcome, ghost added: seq<Db.ImageRow>)
      requires db != null && db.Valid()
      modifies db`images
      ensures db.Valid()
      ensures db.images == old(db.images) + added
      ensures Follows(VisitOutcome(v), o)
      ensures !(Precheck(v).Succeeded? && Captured(v).Pass?) ==> db.images == old(db.images)
      ensures (runId, slug) in old(db.runs) && NoImagesFor(old(db.images), runId, slug) ==>
        o == VisitOutcome(v)
    {
      var pre := Precheck(v);
      o := pre;
      added := [];
      if pre.Succeeded? {
        o, added := ShootAndSave(slug, runId, v);
      }
      if v.open.Pass? && v.close.Fail? {
        o := FailedAt(Closing, v.close.error);
      }
    }

    /**
     * The screenshots of a visit whose checks passed, and their rows: `shoot_sections` may
     * raise before any row is saved, and an insert may raise part-way.
     */
    method ShootAndSave(slug: string, runId: string, v: Visit) returns (o: SlugOutcome, ghost added: seq<Db.ImageRow>)
      requires db != null && db.Valid()
      modifies db`images
      ensures db.Valid()
      ensures db.images == old(db.images) + added
      ensures Captured(v).Fail? ==> o == FailedAt(Capturing, Captured(v).error) && added == []
      ensures Captured(v).Pass? ==> o.Succeeded? || (o.stage == Saving && o.message in {Db.UniqueImageError, Db.ForeignKeyError})
      ensures Captured(v).Pass? && (runId, slug) in old(db.runs) && NoImagesFor(old(db.images), runId, slug) ==>
        o.Succeeded?
    {
      var headers, shots, captured := Shooter.ShootSections(v.headers, slug, v.makeDir, v.areaCapture, v.shotFails);
      if captured.Fail? {
        o := FailedAt(Capturing, captured.error);
        added := [];
        return;
      }
      var saved;
      ghost var count;
      saved, count := SaveResults(slug, runId, shots);
      added := ImageRows(runId, slug, shots[..count]);
      o := if saved.Pass? then Succeeded else FailedAt(Saving, saved.error);
    }

    /**
     * One pass of the batch loop: mark the slug `processing`, open its run, visit it,
     * record the final status and close the run.
     */
    method ProcessOne(slug: string, runId: string, v: Visit) returns (o: SlugOutcome, ghost added: seq<Db.ImageRow>)
      requires db != null && db.Valid() && slug in db.urls
      modifies db`urls, db`runs, db`statusLog, db`images
      ensures db.Valid()
      ensures db.urls == old(db.urls)[slug := Settled(old(db.urls)[slug], o)]
      ensures db.runs == old(db.runs)[(runId, slug) := RunAfter(o)]
      ensures db.statusLog == old(db.statusLog) + SlugLog(slug, o)
      ensures db.images == old(db.images) + added
      ensures Follows(VisitOutcome(v), o)
      ensures (runId, slug) !in old(db.runs) ==> o == VisitOutcome(v)
    {
      var store := db;
      ghost var urls0 := store.urls;
      ghost var runs0 := store.runs;
      ghost var log0 := store.statusLog;
      var started := OpenSlug(store, slug, runId);
      ghost var urls1 := store.urls;
      ghost var runs1 := store.runs;
      o, added := ProcessSlug(slug, runId, v);
      RecordOutcome(store, slug, runId, o);
      AppendAssoc(log0, [(slug, "processing")], [(slug, StatusAfterAsWritten(o))]);
      UpdateTwice(urls0, slug, urls1[slug], Db.StatusUpdated(urls1[slug], StatusAfterAsWritten(o), AsTuple(o).1));
      if started {
        UpdateTwice(runs0, (runId, slug), runs1[(runId, slug)], RunAfter(o));
      }
    }

    /** One turn of the batch loop: the `i`-th pending slug is processed and the batch's tables grow by its rows. */
    method ProcessNext(slug: string, ghost slugs: seq<string>, i: nat, runId: string, visits: string -> Visit,
      ghost pres: seq<SlugOutcome>, ghost urls0: map<string, Db.UrlRow>, ghost runs0: map<(string, string), Db.RunRow>,
      ghost log0: seq<(string, string)>, ghost images0: seq<Db.ImageRow>, ghost prior: seq<SlugOutcome>,
      successful: nat, failed: nat)
      returns (o: SlugOutcome, successful': nat, failed': nat)
      requires i < |slugs| && slug == slugs[i] && slug in urls0 && Db.Distinct(slugs)
      requires successful == SuccessCount(prior) && successful + failed == i
      requires db != null && db.Valid()
      requires pres == VisitOutcomes(slugs, visits)
      requires RowsSoFar(db.urls, db.runs, db.statusLog, db.images, urls0, runs0, log0, images0, runId, slugs, pres, i, prior)
      modifies db`urls, db`runs, db`statusLog, db`images
      ensures db.Valid()
      ensures RowsSoFar(db.urls, db.runs, db.statusLog, db.images, urls0, runs0, log0, images0, runId, slugs, pres,
        i + 1, prior + [o])
      ensures successful' == SuccessCount(prior + [o]) && successful' + failed' == i + 1
    {
      if RunIdUnused(runs0, runId) {
        FreshRunKey(runs0, runId, slugs, prior, i);
      }
      ghost var images := db.images;
      ghost var added;
      VisitOutcomesAt(slugs, visits, i);
      o, added := ProcessOne(slug, runId, visits(slug));
      BatchStep(urls0, runs0, runId, slugs, prior, i, o);
      FollowStep(pres, prior, i, o);
      AppendAssoc(log0, BatchLog(slugs[..i], prior), SlugLog(slug, o));
      PrefixAppend(images0, images, added);
      assert (prior + [o])[..i] == prior;
      if o.Succeeded? {
        successful', failed' := successful + 1, failed;
      } else {
        successful', failed' := successful, failed + 1;
      }
    }

    /** The `for` loop of `process_pending_urls` over the fetched rows, with its two counters. */
    method ProcessRows(store: Db.DatabaseManager, slugs: seq<string>, runId: string, visits: string -> Visit)
      returns (successful: nat, failed: nat, ghost outcomes: seq<SlugOutcome>)
      requires db == store && store.Valid() && Db.Distinct(slugs)
      requires forall k :: 0 <= k < |slugs| ==> slugs[k] in store.urls
      modifies store`urls, store`runs, store`statusLog, store`images
      ensures store.Valid() && |outcomes| == |slugs|
      ensures successful == SuccessCount(outcomes) && failed == |slugs| - successful
      ensures store.urls == SettleAll(old(store.urls), slugs, outcomes)
      ensures store.runs == CloseAll(old(store.runs), runId, slugs, outcomes)
      ensures store.statusLog == old(store.statusLog) + BatchLog(slugs, outcomes)
      ensures old(store.images) <= store.images
      ensures forall k :: 0 <= k < |slugs| ==>
        slugs[k] in store.urls && store.urls[slugs[k]].status != "failed_validation" &&
        (store.urls[slugs[k]].status == "done" <==> outcomes[k].Succeeded?)
      ensures AllFollow(VisitOutcomes(slugs, visits), outcomes)
      ensures RunIdUnused(old(store.runs), runId) ==> outcomes == VisitOutcomes(slugs, visits)
    {
      ghost var urls0 := store.urls;
      ghost var runs0 := store.runs;
      ghost var log0 := store.statusLog;
      ghost var images0 := store.images;
      ghost var pres := VisitOutcomes(slugs, visits);
      outcomes := [];
      successful := 0;
      failed := 0;
      var i := 0;
      while i < |slugs|
        invariant db == store && store.Valid()
        invariant RowsSoFar(store.urls, store.runs, store.statusLog, store.images, urls0, runs0, log0, images0, runId,
          slugs, pres, i, outcomes)
        invariant successful == SuccessCount(outcomes) && successful + failed == i
      {
        ghost var prior := outcomes;
        var o;
        o, successful, failed := ProcessNext(slugs[i], slugs, i, runId, visits, pres, urls0, runs0, log0, images0, prior,
          successful, failed);
        outcomes := outcomes + [o];
        i := i + 1;
      }
      RowsDone(store.urls, store.runs, store.statusLog, store.images, urls0, runs0, log0, images0, runId, slugs, pres,
        outcomes);
      BatchStatuses(urls0, slugs, outcomes);
      if RunIdUnused(runs0, runId) {
        FollowsExactly(pres, outcomes);
      }
    }

    /**
     * `process_pending_urls`: the pending rows are fetched once, then each is processed in
     * order. `runId` stands for the given or freshly generated run id, `visits` for the
     * browser work of each slug.
     */
    method ProcessPendingUrls(store: Db.DatabaseManager, limit: Option<int>, runId: string, visits: string -> Visit)
      returns (r: BatchResult, ghost pending: seq<(string, string)>, ghost outcomes: seq<SlugOutcome>)
      requires store.Valid()
      modifies this`db, store`urls, store`runs, store`statusLog, store`images
      ensures db == store && store.Valid()
      ensures pending == old(store.PendingUrls(limit)) && |outcomes| == |pending|
      ensures pending == [] ==> r == BatchResult(0, 0, 0, None) && store.images == old(store.images)
      ensures pending != [] ==>
        r.processed == |pending| && r.successful == SuccessCount(outcomes) &&
        r.failed == |pending| - r.successful && r.runId == Some(runId)
      ensures store.urls == SettleAll(old(store.urls), Db.SlugsOf(pending), outcomes)
      ensures store.runs == CloseAll(old(store.runs), runId, Db.SlugsOf(pending), outcomes)
      ensures store.statusLog == old(store.statusLog) + BatchLog(Db.SlugsOf(pending), outcomes)
      ensures old(store.images) <= store.images
      ensures forall k :: 0 <= k < |pending| ==>
        pending[k].0 in store.urls && store.urls[pending[k].0].status != "failed_validation" &&
        (store.urls[pending[k].0].status == "done" <==> outcomes[k].Succeeded?)
      ensures AllFollow(VisitOutcomes(Db.SlugsOf(pending), visits), outcomes)
      ensures RunIdUnused(old(store.runs), runId) ==>
        outcomes == VisitOutcomes(Db.SlugsOf(pending), visits)
    {
      db := store;
      var rows := store.PendingUrls(limit);
      pending := rows;
      outcomes := [];
      var slugs := Db.SlugsOf(rows);
      if rows == [] {
        assert slugs == [];
        r := BatchResult(0, 0, 0, None);
        return;
      }
      Db.PendingUrlsDistinct(store, limit);
      var successful, failed;
      successful, failed, outcomes := ProcessRows(store, slugs, runId, visits);
      r := BatchResult(|rows|, successful, failed, Some(runId));
    }

    /**
     * `retry_failed_urls`: every failed row is reset to `pending` (status only), then a batch
     * runs with the number of failed rows as its limit. That batch takes the first pending
     * rows in rowid order, which need not be the reset ones.
     */
    method RetryFailedUrls(store: Db.DatabaseManager, runId: string, visits: string -> Visit)
      returns (r: RetryResult, ghost failedRows: seq<(string, string, Option<string>)>,
        ghost pending: seq<(string, string)>, ghost outcomes: seq<SlugOutcome>)
      requires store.Valid()
      modifies this`db, store`urls, store`runs, store`statusLog, store`images
      ensures db == store && store.Valid()
      ensures failedRows == old(store.FailedUrls())
      ensures failedRows == [] <==> r == NothingToRetry
      ensures failedRows == [] ==>
        store.urls == old(store.urls) && store.runs == old(store.runs) &&
        store.images == old(store.images) && store.statusLog == old(store.statusLog)
      ensures r.RetriedBatch? ==>
        r.batch.processed == |failedRows| == |pending| == |outcomes| && r.batch.runId == Some(runId) &&
        r.batch.successful == SuccessCount(outcomes)
      ensures r.RetriedBatch? ==>
        store.urls == SettleAll(ResetAll(old(store.urls), Db.FailedSlugs(failedRows)), Db.SlugsOf(pending), outcomes) &&
        store.runs == CloseAll(old(store.runs), runId, Db.SlugsOf(pending), outcomes) &&
        store.statusLog == old(store.statusLog) + ResetLog(Db.FailedSlugs(failedRows)) + BatchLog(Db.SlugsOf(pending), outcomes)
      ensures |outcomes| == |pending|
      ensures forall k :: 0 <= k < |pending| ==>
        pending[k].0 in old(store.urls) &&
        old(store.urls)[pending[k].0].status in {"pending", "failed_expansion", "failed_validation"}
      ensures forall k :: 0 <= k < |pending| ==>
        pending[k].0 in store.urls && store.urls[pending[k].0].status != "failed_validation" &&
        (store.urls[pending[k].0].status == "done" <==> outcomes[k].Succeeded?)
    {
      db := store;
      var failed, slugs := FetchAndResetFailed(store);
      failedRows := failed;
      pending := [];
      outcomes := [];
      if failed == [] {
        r := NothingToRetry;
        return;
      }
      var batch;
      batch, pending, outcomes := ProcessPendingUrls(store, Some(|failed|), runId, visits);
      r := RetriedBatch(batch);
    }
  }
}
