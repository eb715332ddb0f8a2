/**
 * `FastAMBOSSProcessor` of the `amboss` package: article URLs are read from a text listing
 * (numbered lines `N. url - title` or bare URLs, under a few header lines), and each URL is
 * opened, checked, expanded, validated and captured, with instance counters that accumulate
 * over every call. The browser work of one article is given as an `ArticleVisit` value.
 */
module FastProcessor {
  import opened Wrappers
  import opened Text
  import opened Urls
  import Dom
  import Expander
  import Retry
  import Validator
  import Tasks

  // ---------------------------------------------------------------- extract_urls_from_file

  /** A stripped line the reader passes over: empty, or one of the listing's header lines. */
  predicate Skipped(line: string) {
    line == [] || "AMBOSS All Article URLs" <= line || "Generated on:" <= line || "Total URLs:" <= line
  }

  /**
   * The URL a kept line stands for: on a line that starts with a digit and holds `". "`, the
   * text between the first and the second `". "`, cut at the first `" - "`; otherwise the
   * whole line.
   */
  function Candidate(line: string): (url: string)
    requires line != []
    ensures !(IsDigit(line[0]) && Contains(line, ". ")) ==> url == line
    ensures IsDigit(line[0]) && Contains(line, ". ") ==>
      url <= After(line, ". ") && url <= Before(After(line, ". "), ". ")
  {
    if IsDigit(line[0]) && Contains(line, ". ") then
      var part := Before(After(line, ". "), ". ");
      Before(part, " - ")
    else
      line
  }

  /** A line's characters hold no space. */
  predicate NoSpace(s: string) {
    forall k :: 0 <= k < |s| ==> s[k] != ' '
  }

  /** The text before a separator whose first occurrence is at `i`. */
  lemma BeforeFirst(s: string, sep: string, i: nat)
    requires OccursAt(s, sep, i)
    requires forall j :: 0 <= j < i ==> !OccursAt(s, sep, j)
    ensures Before(s, sep) == s[..i]
  {
    FindFirst(s, sep, i);
  }

  /** After a run of digits, the first `". "` is the one that follows them. */
  lemma AfterNumber(n: string, rest: string)
    requires forall k :: 0 <= k < |n| ==> IsDigit(n[k])
    ensures Contains(n + ". " + rest, ". ")
    ensures After(n + ". " + rest, ". ") == rest
  {
    var line := n + ". " + rest;
    assert line[|n|..|n| + 2] == ". ";
    forall j | 0 <= j < |n| && j + 2 <= |line| ensures !OccursAt(line, ". ", j) {
      assert line[j..j + 2][0] == n[j];
    }
    BeforeFirst(line, ". ", |n|);
    assert line[..|n|] == n;
  }

  /** A space-free URL not ending in `.`, followed by `" - "`, holds no `". "` up to the dash. */
  lemma NoStopBeforeDash(url: string, title: string)
    requires NoSpace(url) && (url != [] ==> url[|url| - 1] != '.')
    ensures var rest := url + " - " + title;
      |Before(rest, ". ")| >= |url| + 3 && Before(rest, ". ")[..|url| + 3] == url + " - "
  {
    var rest := url + " - " + title;
    forall j | 0 <= j < |url| + 3 && j + 2 <= |rest| ensures !OccursAt(rest, ". ", j) {
      var pair := rest[j..j + 2];
      assert pair[0] == rest[j] && pair[1] == rest[j + 1];
      if j < |url| - 1 {
        assert rest[j + 1] == url[j + 1] != ' ';
      } else if j == |url| - 1 {
        assert rest[j] == url[j] != '.';
      } else {
        assert rest[j] == " - "[j - |url|] != '.';
      }
      assert pair != ". ";
    }
    var part := Before(rest, ". ");
    if Contains(rest, ". ") {
      var i := Find(rest, ". ").value;
      assert OccursAt(rest, ". ", i);
      assert part == rest[..i];
    }
    assert rest[..|url| + 3] == url + " - ";
  }

  /** Cutting at the first `" - "` gives back the space-free text before it. */
  lemma CutAtDash(part: string, url: string)
    requires NoSpace(url) && |part| >= |url| + 3 && part[..|url| + 3] == url + " - "
    ensures Before(part, " - ") == url
  {
    assert part[|url|..|url| + 3] == " - ";
    forall j | 0 <= j < |url| && j + 3 <= |part| ensures !OccursAt(part, " - ", j) {
      assert part[j..j + 3][0] == url[j];
    }
    BeforeFirst(part, " - ", |url|);
    assert part[..|url|] == url;
  }

  /** The listing layout `N. url - title` gives back `url` whenever the URL has no space and does not end in `.`. */
  lemma CandidateOfListing(n: string, url: string, title: string)
    requires n != [] && forall k :: 0 <= k < |n| ==> IsDigit(n[k])
    requires NoSpace(url) && (url != [] ==> url[|url| - 1] != '.')
    ensures Candidate(n + ". " + url + " - " + title) == url
  {
    var rest := url + " - " + title;
    assert n + ". " + url + " - " + title == n + ". " + rest;
    AfterNumber(n, rest);
    NoStopBeforeDash(url, title);
    CutAtDash(Before(rest, ". "), url);
  }

  /** A URL as the reader returns it: matching the article pattern, without query or fragment, and clean. */
  predicate IsCleanArticleUrl(x: string) {
    MatchArticle(x).Some? && '?' !in x && '#' !in x && Clean(x) == x
  }

  /** What one line of the file contributes: the cleaned URL when the candidate matches the article pattern. */
  function LineUrl(raw: string): (r: Option<string>)
    ensures r.Some? ==> IsCleanArticleUrl(r.value)
  {
    var line := Strip(raw);
    if Skipped(line) then None
    else
      var url := Candidate(line);
      if MatchArticle(url).Some? then
        CleanArticle(url);
        Some(Clean(url))
      else
        None
  }

  /** The URLs `extract_urls_from_file` collects from the lines of a readable file, in file order. */
  function UrlsOfLines(lines: seq<string>): (urls: seq<string>)
    ensures |urls| <= |lines|
  {
    if lines == [] then []
    else
      var init := UrlsOfLines(lines[..|lines| - 1]);
      match LineUrl(lines[|lines| - 1])
      case Some(u) => init + [u]
      case None => init
  }

  /** The reader returns only clean article URLs. */
  lemma {:induction false} UrlsOfLinesClean(lines: seq<string>)
    ensures AllOf(IsCleanArticleUrl, UrlsOfLines(lines))
  {
    if lines != [] {
      var init := UrlsOfLines(lines[..|lines| - 1]);
      UrlsOfLinesClean(lines[..|lines| - 1]);
      var last := LineUrl(lines[|lines| - 1]);
      if last.Some? {
        AllOfSnoc(IsCleanArticleUrl, init, last.value);
      }
    }
  }

  lemma UrlsOfLinesStep(lines: seq<string>, i: nat)
    requires i < |lines|
    ensures UrlsOfLines(lines[..i + 1]) ==
      UrlsOfLines(lines[..i]) + (if LineUrl(lines[i]).Some? then [LineUrl(lines[i]).value] else [])
  {
    assert lines[..i + 1][..i] == lines[..i];
  }

  /** Lines are read independently and in order: duplicates stay, nothing is reordered. */
  lemma {:induction false} UrlsOfLinesAppend(a: seq<string>, b: seq<string>)
    ensures UrlsOfLines(a + b) == UrlsOfLines(a) + UrlsOfLines(b)
    decreases |b|
  {
    if b == [] {
      assert a + b == a;
    } else {
      var b0 := b[..|b| - 1];
      assert (a + b)[..|a + b| - 1] == a + b0;
      assert (a + b)[|a + b| - 1] == b[|b| - 1];
      UrlsOfLinesAppend(a, b0);
    }
  }

  /** A file of one line yields that line's URL, if any. */
  lemma UrlsOfOneLine(line: string)
    ensures UrlsOfLines([line]) == if LineUrl(line).Some? then [LineUrl(line).value] else []
  {
    assert [line][..0] == [];
  }

  /** Lines that each yield one URL are read back as exactly those URLs, in order. */
  lemma {:induction false} UrlsOfLinesPointwise(lines: seq<string>, urls: seq<string>)
    requires |lines| == |urls|
    requires forall k :: 0 <= k < |lines| ==> LineUrl(lines[k]) == Some(urls[k])
    ensures UrlsOfLines(lines) == urls
  {
    if lines != [] {
      var n := |lines| - 1;
      UrlsOfLinesPointwise(lines[..n], urls[..n]);
      assert LineUrl(lines[n]) == Some(urls[n]);
      Text.SplitLast(urls);
    }
  }

  /** Blank and header lines contribute nothing. */
  lemma {:induction false} SkippedLinesContributeNothing(lines: seq<string>)
    requires forall k :: 0 <= k < |lines| ==> Skipped(Strip(lines[k]))
    ensures UrlsOfLines(lines) == []
  {
    if lines != [] {
      SkippedLinesContributeNothing(lines[..|lines| - 1]);
    }
  }

  /**
   * `extract_urls_from_file`: `file` is the file's text, or the error opening or reading
   * it, in which case nothing is returned.
   */
  method ExtractUrlsFromFile(file: Result<string>) returns (urls: seq<string>)
    ensures file.Failure? ==> urls == []
    ensures file.Success? ==> urls == UrlsOfLines(FileLines(file.value))
  {
    urls := [];
    if file.Failure? {
      return;
    }
    var lines := FileLines(file.value);
    var i := 0;
    while i < |lines|
      invariant 0 <= i <= |lines|
      invariant urls == UrlsOfLines(lines[..i])
    {
      var next := LineUrl(lines[i]);
      UrlsOfLinesStep(lines, i);
      if next.Some? {
        urls := urls + [next.value];
      }
      i := i + 1;
    }
    assert lines[..i] == lines;
  }

  // ---------------------------------------------------------------- process_article

  /**
   * What processing one article observes: whether the browser context and page open,
   * whether navigation raises, whether the session is still authenticated, the pages
   * `fully_expand` verifies and the address tenacity shows for its last future, the page
   * `validate_page` sees, whether creating the output directory and capturing raise, and
   * whether closing the page and context raises.
   */
  datatype ArticleVisit = ArticleVisit(
    open: Outcome,
    navigation: Outcome,
    authenticated: bool,
    expansionPages: nat -> Dom.Page,
    expansionFuture: string,
    validationPage: Dom.Page,
    capture: Outcome,
    close: Outcome)

  /** The `(success, error)` pair `process_article` returns. */
  type Reply = (bool, Option<string>)

  /**
   * The steps once the page is open, the validation result read through `passKey` and
   * `listKey`: the first step that fails decides the reply. Four failed expansion checks
   * raise tenacity's `RetryError`, which the `except ExpansionFailure` branch does not
   * catch, so they end in the generic "Processing error" reply.
   */
  function PageSteps(v: ArticleVisit, passKey: string, listKey: string): (r: Reply)
    ensures r.0 <==> r.1.None?
    ensures r.0 <==>
      v.navigation.Pass? && v.authenticated && Expander.ExpansionSettles(v.expansionPages) &&
      Validator.GetFlag(Validator.PageReportOf(v.validationPage), passKey) && v.capture.Pass?
    ensures v.navigation.Pass? && v.authenticated && !Expander.ExpansionSettles(v.expansionPages) ==>
      r == (false, Some("Processing error: " + Retry.RetryErrorText(v.expansionFuture, Expander.ExpansionFailureType)))
  {
    if v.navigation.Fail? then (false, Some("Processing error: " + v.navigation.error))
    else if !v.authenticated then (false, Some("Authentication failed"))
    else
      var expansion := Expander.FullyExpandAsWritten(v.expansionPages, v.expansionFuture);
      if expansion.outcome.Fail? then (false, Some("Processing error: " + expansion.outcome.error))
      else
        var report := Validator.PageReportOf(v.validationPage);
        if !Validator.GetFlag(report, passKey) then
          (false, Some("Validation failed: " + Tasks.ReprList(Validator.GetList(report, listKey))))
        else if v.capture.Fail? then (false, Some("Processing error: " + v.capture.error))
        else (true, None)
  }

  /**
   * `process_article` of this module reading the validation result through `passKey` and
   * `listKey`: a URL outside the article pattern is refused before any browser work, and
   * an exception while closing the page replaces whatever the body returned.
   */
  function ProcessArticleReading(url: string, v: ArticleVisit, passKey: string, listKey: string): (r: Reply)
    ensures r.0 <==> r.1.None?
    ensures MatchArticle(url).None? ==> r == (false, Some("Invalid URL format"))
    ensures MatchArticle(url).Some? && v.open.Pass? && v.close.Pass? ==> r == PageSteps(v, passKey, listKey)
  {
    if MatchArticle(url).None? then (false, Some("Invalid URL format"))
    else if v.open.Fail? then (false, Some("Processing error: " + v.open.error))
    else if v.close.Fail? then (false, Some("Processing error: " + v.close.error))
    else PageSteps(v, passKey, listKey)
  }

  /** `process_article` as written: it reads `is_valid` and `issues`, keys `validate_page` never sets. */
  function ProcessArticleAsWritten(url: string, v: ArticleVisit): Reply {
    ProcessArticleReading(url, v, "is_valid", "issues")
  }

  /** As written, no article is ever reported as processed; a page that passes every step is refused with an empty list. */
  lemma ProcessArticleAsWrittenNeverSucceeds(url: string, v: ArticleVisit)
    ensures !ProcessArticleAsWritten(url, v).0
    ensures (MatchArticle(url).Some? && v.open.Pass? && v.close.Pass? && v.navigation.Pass? && v.authenticated &&
             Expander.ExpansionSettles(v.expansionPages)) ==>
      ProcessArticleAsWritten(url, v) == (false, Some("Validation failed: []"))
  {
    var report := Validator.PageReportOf(v.validationPage);
    assert !Validator.GetFlag(report, "is_valid");
    if v.navigation.Pass? && v.authenticated && Expander.ExpansionSettles(v.expansionPages) {
      assert Validator.GetList(report, "issues") == [];
      assert Tasks.ReprList([]) == "[]";
      assert "Validation failed: " + "[]" == "Validation failed: []";
      assert PageSteps(v, "is_valid", "issues") == (false, Some("Validation failed: " + Tasks.ReprList([])));
    }
  }

  /** `process_article` reading the keys `validate_page` does set: `validation_passed` and `errors`. */
  function ProcessArticle(url: string, v: ArticleVisit): Reply {
    ProcessArticleReading(url, v, "validation_passed", "errors")
  }

  /** An article is processed exactly when it matches the pattern, every step passes and no hidden section is visible. */
  lemma ProcessArticleSucceedsIff(url: string, v: ArticleVisit)
    ensures ProcessArticle(url, v).0 <==>
      MatchArticle(url).Some? && v.open.Pass? && v.close.Pass? && v.navigation.Pass? && v.authenticated &&
      Expander.ExpansionSettles(v.expansionPages) &&
      Dom.VisibleTotal(v.validationPage, Validator.HiddenSelectors) == 0 && v.capture.Pass?
  {
    var report := Validator.PageReportOf(v.validationPage);
    assert report.validationPassed <==> Dom.VisibleTotal(v.validationPage, Validator.HiddenSelectors) == 0;
  }

  /** With the keys read correctly, a page that passes every step is accepted where the code as written refuses it. */
  lemma CorrectKeysAccept(url: string, v: ArticleVisit)
    requires MatchArticle(url).Some? && v.open.Pass? && v.close.Pass? && v.navigation.Pass? && v.authenticated
    requires Expander.ExpansionSettles(v.expansionPages) && v.capture.Pass?
    requires Dom.VisibleTotal(v.validationPage, Validator.HiddenSelectors) == 0
    ensures ProcessArticle(url, v) == (true, None)
    ensures ProcessArticleAsWritten(url, v) == (false, Some("Validation failed: []"))
  {
    ProcessArticleSucceedsIff(url, v);
    ProcessArticleAsWrittenNeverSucceeds(url, v);
  }

  /** "Invalid URL format" is the reply for exactly the URLs outside the article pattern, whatever keys are read. */
  lemma InvalidUrlFormatIff(url: string, v: ArticleVisit, passKey: string, listKey: string)
    ensures ProcessArticleReading(url, v, passKey, listKey) == (false, Some("Invalid URL format")) <==>
      MatchArticle(url).None?
  {
    var r := ProcessArticleReading(url, v, passKey, listKey);
    if MatchArticle(url).Some? && r.1.Some? {
      assert r.1.value[0] != 'I';
    }
  }

  // ---------------------------------------------------------------- process_all_articles

  /** `urls[:limit]` under `if limit:`: `None` and `0` keep every URL, a negative limit drops from the end. */
  function Limited(urls: seq<string>, limit: Option<int>): (r: seq<string>)
    ensures r <= urls
    ensures limit.None? || limit.value == 0 ==> r == urls
    ensures limit.Some? && limit.value > 0 ==>
      |r| == (if limit.value < |urls| then limit.value else |urls|)
    ensures limit.Some? && limit.value < 0 ==>
      |r| == (if |urls| + limit.value > 0 then |urls| + limit.value else 0)
  {
    if limit.None? || limit.value == 0 then urls
    else if limit.value > 0 then urls[..if limit.value < |urls| then limit.value else |urls|]
    else urls[..if |urls| + limit.value > 0 then |urls| + limit.value else 0]
  }

  /** How many of `urls` are processed successfully, `visits(i)` being the visit of `urls[i]`. */
  function Succeeded(urls: seq<string>, visits: nat -> ArticleVisit, process: (string, ArticleVisit) -> Reply): (n: nat)
    ensures n <= |urls|
  {
    if urls == [] then 0
    else
      Succeeded(urls[..|urls| - 1], visits, process) +
      (if process(urls[|urls| - 1], visits(|urls| - 1)).0 then 1 else 0)
  }

  lemma SucceededStep(urls: seq<string>, i: nat, visits: nat -> ArticleVisit, process: (string, ArticleVisit) -> Reply)
    requires i < |urls|
    ensures Succeeded(urls[..i + 1], visits, process) ==
      Succeeded(urls[..i], visits, process) + (if process(urls[i], visits(i)).0 then 1 else 0)
  {
    assert urls[..i + 1][..i] == urls[..i];
  }

  /** Processing with the keys as written succeeds for no URL. */
  lemma {:induction false} SucceededAsWrittenIsZero(urls: seq<string>, visits: nat -> ArticleVisit)
    ensures Succeeded(urls, visits, ProcessArticleAsWritten) == 0
  {
    if urls != [] {
      SucceededAsWrittenIsZero(urls[..|urls| - 1], visits);
      ProcessArticleAsWrittenNeverSucceeds(urls[|urls| - 1], visits(|urls| - 1));
    }
  }

  /**
   * Processing the `i`-th URL of a batch as written: whether it succeeds, and so adds one to
   * the successes so far, which it never does.
   */
  method ProcessNth(batch: seq<string>, i: nat, visits: nat -> ArticleVisit) returns (success: bool)
    requires i < |batch|
    ensures Succeeded(batch[..i + 1], visits, ProcessArticleAsWritten) ==
      Succeeded(batch[..i], visits, ProcessArticleAsWritten) + (if success then 1 else 0)
    ensures !success
  {
    SucceededStep(batch, i, visits, ProcessArticleAsWritten);
    var reply := ProcessArticleAsWritten(batch[i], visits(i));
    ProcessArticleAsWrittenNeverSucceeds(batch[i], visits(i));
    success := reply.0;
  }

  /** The dictionary `process_all_articles` returns. */
  datatype Report = Report(total: nat, processed: nat, successful: nat, failed: nat, successRate: real)

  /** `success_count / len(urls) if urls else 0`: the counters are cumulative, the total is this call's. */
  function RateOf(successful: nat, total: nat): real {
    if total == 0 then 0.0 else successful as real / total as real
  }

  /** On an instance whose counters start at zero, the success rate lies in [0, 1]. */
  lemma FirstCallRate(successful: nat, total: nat)
    requires successful <= total
    ensures 0.0 <= RateOf(successful, total) <= 1.0
  {
    if total > 0 {
      Validator.RateBounds(successful, total);
    }
  }

  /** The processor's counters, kept across calls of `process_all_articles`. */
  class Processor {
    var processedCount: nat
    var successCount: nat
    var failedCount: nat

    /** Every processed URL was counted once, as a success or as a failure. */
    predicate Valid()
      reads this
    {
      processedCount == successCount + failedCount
    }

    constructor ()
      ensures Valid()
      ensures processedCount == 0 && successCount == 0 && failedCount == 0
    {
      processedCount := 0;
      successCount := 0;
      failedCount := 0;
    }

    /** The counter updates for one processed URL: one more processed, and one more success or failure. */
    method Count(success: bool)
      requires Valid()
      modifies this
      ensures Valid()
      ensures processedCount == old(processedCount) + 1
      ensures successCount == old(successCount) + (if success then 1 else 0)
      ensures failedCount == old(failedCount) + (if success then 0 else 1)
    {
      processedCount := processedCount + 1;
      if success {
        successCount := successCount + 1;
      } else {
        failedCount := failedCount + 1;
      }
    }

    /**
     * `process_all_articles`: `authenticated` is the outcome of the initial authentication
     * check, `visits(i)` the visit of the `i`-th URL kept. `pausedAfter` lists the positions
     * after which the rate-limiting pause happens.
     */
    method ProcessAllArticles(urls: seq<string>, limit: Option<int>, authenticated: bool, visits: nat -> ArticleVisit)
      returns (r: Result<Report>, pausedAfter: seq<nat>)
      requires Valid()
      modifies this
      ensures Valid()
      ensures !authenticated ==>
        r == Failure("Authentication failed - cannot access AMBOSS") && pausedAfter == [] &&
        processedCount == old(processedCount) && successCount == old(successCount) && failedCount == old(failedCount)
      ensures authenticated ==>
        var batch := Limited(urls, limit);
        && processedCount == old(processedCount) + |batch|
        && successCount == old(successCount) + Succeeded(batch, visits, ProcessArticleAsWritten)
        && successCount == old(successCount)
        && failedCount == old(failedCount) + |batch|
        && r == Success(Report(|batch|, processedCount, successCount, failedCount, RateOf(successCount, |batch|)))
        && (old(successCount) == 0 ==> r.value.successRate == 0.0)
        && |pausedAfter| == (if |batch| > 0 then |batch| - 1 else 0)
        && (forall k :: 0 <= k < |pausedAfter| ==> pausedAfter[k] == k)
    {
      pausedAfter := [];
      if !authenticated {
        r := Failure("Authentication failed - cannot access AMBOSS");
        return;
      }
      var batch := Limited(urls, limit);
      var i := 0;
      while i < |batch|
        invariant 0 <= i <= |batch|
        invariant Valid()
        invariant processedCount == old(processedCount) + i
        invariant successCount == old(successCount) && failedCount == old(failedCount) + i
        invariant |pausedAfter| == (if i == |batch| && i > 0 then i - 1 else i)
        invariant forall k :: 0 <= k < |pausedAfter| ==> pausedAfter[k] == k
      {
        var success := ProcessNth(batch, i, visits);
        Count(success);
        if i < |batch| - 1 {
          pausedAfter := pausedAfter + [i];
        }
        i := i + 1;
      }
      assert batch[..i] == batch;
      SucceededAsWrittenIsZero(batch, visits);
      r := Success(Report(|batch|, processedCount, successCount, failedCount, RateOf(successCount, |batch|)));
    }
  }
}
