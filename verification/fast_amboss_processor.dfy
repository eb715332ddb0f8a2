/**
 * The stand-alone `fast_amboss_processor.py` script: the same URL listing reader as the
 * package's fast processor, a per-article check that reads the validation result through
 * `validation_passed` and `errors`, no initial authentication check, and errors raised
 * while closing the page swallowed.
 */
module FastAmbossProcessor {
  import opened Wrappers
  import opened Urls
  import Text
  import Dom
  import Expander
  import Retry
  import Validator
  import Tasks
  import FastProcessor

  /**
   * `process_article` of the script; an error while closing the page or context is swallowed.
   * As in the package processor, four failed expansion checks raise `RetryError`, which
   * falls through to the generic "Processing error" reply.
   */
  function ProcessArticle(url: string, v: FastProcessor.ArticleVisit): (r: FastProcessor.Reply)
    ensures r.0 <==> r.1.None?
    ensures MatchArticle(url).None? ==> r == (false, Some("Invalid URL format"))
    ensures MatchArticle(url).Some? && v.open.Fail? ==> r == (false, Some("Processing error: " + v.open.error))
    ensures (MatchArticle(url).Some? && v.open.Pass? && v.navigation.Pass? && v.authenticated &&
             !Expander.ExpansionSettles(v.expansionPages)) ==>
      r == (false, Some("Processing error: " + Retry.RetryErrorText(v.expansionFuture, Expander.ExpansionFailureType)))
  {
    if MatchArticle(url).None? then (false, Some("Invalid URL format"))
    else if v.open.Fail? then (false, Some("Processing error: " + v.open.error))
    else FastProcessor.PageSteps(v, "validation_passed", "errors")
  }

  /** An article succeeds exactly when it matches, every step passes and no hidden section is visible. */
  lemma ProcessArticleSucceedsIff(url: string, v: FastProcessor.ArticleVisit)
    ensures ProcessArticle(url, v).0 <==>
      MatchArticle(url).Some? && v.open.Pass? && v.navigation.Pass? && v.authenticated &&
      Expander.ExpansionSettles(v.expansionPages) &&
      Dom.VisibleTotal(v.validationPage, Validator.HiddenSelectors) == 0 && v.capture.Pass?
  {
    var report := Validator.PageReportOf(v.validationPage);
    assert report.validationPassed <==> Dom.VisibleTotal(v.validationPage, Validator.HiddenSelectors) == 0;
  }

  /** A page still showing `n` hidden sections is refused with the validator's own error message. */
  lemma HiddenSectionsRefused(url: string, v: FastProcessor.ArticleVisit)
    requires MatchArticle(url).Some? && v.open.Pass? && v.navigation.Pass? && v.authenticated
    requires Expander.ExpansionSettles(v.expansionPages)
    requires Dom.VisibleTotal(v.validationPage, Validator.HiddenSelectors) > 0
    ensures ProcessArticle(url, v) == (false, Some("Validation failed: " + Tasks.ReprList(
      ["Found " + Text.NatToString(Dom.VisibleTotal(v.validationPage, Validator.HiddenSelectors)) + " hidden sections"])))
  {
    var report := Validator.PageReportOf(v.validationPage);
    var n := Dom.VisibleTotal(v.validationPage, Validator.HiddenSelectors);
    assert !report.validationPassed;
    assert report.errors == ["Found " + Text.NatToString(n) + " hidden sections"];
  }

  /**
   * The script and the package processor (with the keys read correctly) agree whenever
   * closing the page works; when closing raises, only the package processor turns the
   * reply into a failure.
   */
  lemma AgreesWithPackageProcessor(url: string, v: FastProcessor.ArticleVisit)
    ensures v.close.Pass? ==> ProcessArticle(url, v) == FastProcessor.ProcessArticle(url, v)
    ensures FastProcessor.ProcessArticle(url, v).0 ==> ProcessArticle(url, v).0
    ensures v.close.Fail? ==> !FastProcessor.ProcessArticle(url, v).0
  {
  }

  /** Processing the `i`-th URL of a batch: whether it succeeds, and so adds one to the successes so far. */
  method Visit(batch: seq<string>, i: nat, visits: nat -> FastProcessor.ArticleVisit) returns (success: bool)
    requires i < |batch|
    ensures FastProcessor.Succeeded(batch[..i + 1], visits, ProcessArticle) ==
      FastProcessor.Succeeded(batch[..i], visits, ProcessArticle) + (if success then 1 else 0)
  {
    FastProcessor.SucceededStep(batch, i, visits, ProcessArticle);
    var reply := ProcessArticle(batch[i], visits(i));
    success := reply.0;
  }

  /** The script's counters, kept across calls of `process_all_articles`. */
  class Processor {
    var processedCount: nat
    var successCount: nat
    var failedCount: nat

    /** Every processed URL was counted once, as a success or as a failure. */
    predicate Valid()
      reads this
    {
      processedCount == successCount + failedCount
    }

    constructor ()
      ensures Valid()
      ensures processedCount == 0 && successCount == 0 && failedCount == 0
    {
      processedCount := 0;
      successCount := 0;
      failedCount := 0;
    }

    /** The counter updates for one processed URL: one more processed, and one more success or failure. */
    method Count(success: bool)
      requires Valid()
      modifies this
      ensures Valid()
      ensures processedCount == old(processedCount) + 1
      ensures successCount == old(successCount) + (if success then 1 else 0)
      ensures failedCount == old(failedCount) + (if success then 0 else 1)
    {
      processedCount := processedCount + 1;
      if success {
        successCount := successCount + 1;
      } else {
        failedCount := failedCount + 1;
      }
    }

    /**
     * `process_all_articles` of the script: no initial authentication check, `visits(i)` is
     * the visit of the `i`-th URL kept, and `pausedAfter` lists the positions after which
     * the rate-limiting pause happens.
     */
    method ProcessAllArticles(urls: seq<string>, limit: Option<int>, visits: nat -> FastProcessor.ArticleVisit)
      returns (r: FastProcessor.Report, pausedAfter: seq<nat>)
      requires Valid()
      modifies this
      ensures Valid()
      ensures var batch := FastProcessor.Limited(urls, limit);
        var wins := FastProcessor.Succeeded(batch, visits, ProcessArticle);
        && processedCount == old(processedCount) + |batch|
        && successCount == old(successCount) + wins
        && failedCount == old(failedCount) + (|batch| - wins)
        && r == FastProcessor.Report(|batch|, processedCount, successCount, failedCount,
                                     FastProcessor.RateOf(successCount, |batch|))
        && |pausedAfter| == (if |batch| > 0 then |batch| - 1 else 0)
        && (forall k :: 0 <= k < |pausedAfter| ==> pausedAfter[k] == k)
    {
      pausedAfter := [];
      var batch := FastProcessor.Limited(urls, limit);
      var i := 0;
      while i < |batch|
        invariant 0 <= i <= |batch|
        invariant Valid()
        invariant processedCount == old(processedCount) + i
        invariant successCount == old(successCount) + FastProcessor.Succeeded(batch[..i], visits, ProcessArticle)
        invariant failedCount == old(failedCount) + (i - FastProcessor.Succeeded(batch[..i], visits, ProcessArticle))
        invariant |pausedAfter| == (if i == |batch| && i > 0 then i - 1 else i)
        invariant forall k :: 0 <= k < |pausedAfter| ==> pausedAfter[k] == k
      {
        var success := Visit(batch, i, visits);
        Count(success);
        if i < |batch| - 1 {
          pausedAfter := pausedAfter + [i];
        }
        i := i + 1;
      }
      assert batch[..i] == batch;
      r := FastProcessor.Report(|batch|, processedCount, successCount, failedCount,
                                FastProcessor.RateOf(successCount, |batch|));
    }
  }
}
