/**
 * `SearchExtractor`: the search-results page is expanded by clicking "Mehr anzeigen" a
 * bounded number of times, every article link is read off the page, and the links are
 * cleaned into a sorted list of distinct `scheme://netloc/path` article URLs.
 */
module SearchExtractor {
  import opened Wrappers
  import opened Text
  import opened LexOrder
  import opened Urls

  // ---------------------------------------------------------------- _clean_urls

  /** The inputs `_clean_urls` keeps: those `re.match` accepts. */
  predicate IsArticleUrl(u: string) {
    MatchArticle(u).Some?
  }

  /** `x` is `f` of some input that `keep` accepts. */
  predicate Produced(x: string, urls: seq<string>, keep: string -> bool, f: string -> string) {
    exists i :: 0 <= i < |urls| && keep(urls[i]) && f(urls[i]) == x
  }

  /** `x` is the cleaned form of some input that matches the article pattern. */
  predicate CleanedFrom(x: string, urls: seq<string>) {
    Produced(x, urls, IsArticleUrl, Clean)
  }

  /** `[f(u) for u in urls if keep(u)]`. */
  function FilterMap(urls: seq<string>, keep: string -> bool, f: string -> string): (r: seq<string>)
    ensures |r| <= |urls|
    ensures forall x :: x in r ==> Produced(x, urls, keep, f)
    ensures forall i :: 0 <= i < |urls| && keep(urls[i]) ==> f(urls[i]) in r
  {
    if urls == [] then []
    else
      var rest := FilterMap(urls[1..], keep, f);
      var r := (if keep(urls[0]) then [f(urls[0])] else []) + rest;
      forall x | x in rest ensures Produced(x, urls, keep, f) {
        var i :| 0 <= i < |urls[1..]| && keep(urls[1..][i]) && f(urls[1..][i]) == x;
        assert urls[i + 1] == urls[1..][i];
      }
      forall i | 0 < i < |urls| && keep(urls[i]) ensures f(urls[i]) in r {
        assert urls[i] == urls[1..][i - 1];
      }
      r
  }

  /**
   * `_clean_urls`: the sorted list of distinct cleaned forms of the inputs that match
   * `https://next\.amboss\.com/de/article/([a-zA-Z0-9-]+)`.
   */
  function CleanUrls(urls: seq<string>): (r: seq<string>)
    ensures StrictlyAscending(r)
    ensures forall x :: x in r <==> CleanedFrom(x, urls)
  {
    var r := SortedSet(FilterMap(urls, IsArticleUrl, Clean));
    assert forall x :: x in r <==> x in Elems(r);
    r
  }

  /** Every URL `_clean_urls` returns still matches the pattern and carries no query or fragment. */
  lemma CleanUrlsShape(urls: seq<string>)
    ensures forall x :: x in CleanUrls(urls) ==>
      MatchArticle(x).Some? && '?' !in x && '#' !in x && Clean(x) == x
  {
    forall x | x in CleanUrls(urls)
      ensures MatchArticle(x).Some? && '?' !in x && '#' !in x && Clean(x) == x
    {
      var i :| 0 <= i < |urls| && MatchArticle(urls[i]).Some? && Clean(urls[i]) == x;
      CleanArticle(urls[i]);
    }
  }

  /** Two inputs with the same cleaned matches clean to the same list. */
  lemma CleanUrlsDependOnlyOnCleanedSet(a: seq<string>, b: seq<string>)
    requires forall x :: CleanedFrom(x, a) <==> CleanedFrom(x, b)
    ensures CleanUrls(a) == CleanUrls(b)
  {
    var ra, rb := CleanUrls(a), CleanUrls(b);
    assert Elems(ra) == Elems(rb) by {
      forall x ensures x in Elems(ra) <==> x in Elems(rb) {
        assert x in ra <==> CleanedFrom(x, a);
        assert x in rb <==> CleanedFrom(x, b);
      }
    }
    AscendingUnique(ra, rb);
  }

  /** `_clean_urls` is idempotent. */
  lemma CleanUrlsIdempotent(urls: seq<string>)
    ensures CleanUrls(CleanUrls(urls)) == CleanUrls(urls)
  {
    var r := CleanUrls(urls);
    CleanUrlsShape(urls);
    forall x ensures CleanedFrom(x, r) <==> CleanedFrom(x, urls) {
      if CleanedFrom(x, r) {
        var i :| 0 <= i < |r| && MatchArticle(r[i]).Some? && Clean(r[i]) == x;
        assert r[i] in r;
      }
      if CleanedFrom(x, urls) {
        assert x in r;
        var i :| 0 <= i < |r| && r[i] == x;
        assert MatchArticle(r[i]).Some? && Clean(r[i]) == x;
      }
    }
    CleanUrlsDependOnlyOnCleanedSet(r, urls);
  }

  // ---------------------------------------------------------------- _extract_urls_from_page

  /** The in-page script keeps the `href`s that contain `/de/article/`, in document order. */
  function ArticleLinks(hrefs: seq<string>): (r: seq<string>)
    ensures |r| <= |hrefs|
    ensures forall x :: x in r <==> x in hrefs && Contains(x, "/de/article/")
  {
    if hrefs == [] then []
    else (if Contains(hrefs[0], "/de/article/") then [hrefs[0]] else []) + ArticleLinks(hrefs[1..])
  }

  /** A URL matching the article pattern contains `/de/article/`. */
  lemma ArticleMatchContainsArticlePath(u: string)
    requires MatchArticle(u).Some?
    ensures Contains(u, "/de/article/")
  {
    assert u[..|ArticlePrefix|] == ArticlePrefix;
    assert u[23..35] == "/de/article/";
    assert OccursAt(u, "/de/article/", 23);
  }

  /** Dropping inputs `keep` rejects does not change what is produced. */
  lemma ProducedOfSubsequence(a: seq<string>, b: seq<string>, keep: string -> bool, f: string -> string)
    requires forall u :: u in a ==> u in b
    requires forall u :: u in b && keep(u) ==> u in a
    ensures forall x :: Produced(x, a, keep, f) <==> Produced(x, b, keep, f)
  {
    forall x ensures Produced(x, a, keep, f) <==> Produced(x, b, keep, f) {
      if Produced(x, a, keep, f) {
        var i :| 0 <= i < |a| && keep(a[i]) && f(a[i]) == x;
        assert a[i] in b;
        var j :| 0 <= j < |b| && b[j] == a[i];
      }
      if Produced(x, b, keep, f) {
        var j :| 0 <= j < |b| && keep(b[j]) && f(b[j]) == x;
        assert b[j] in a;
        var i :| 0 <= i < |a| && a[i] == b[j];
      }
    }
  }

  /** The in-page filter never removes a link that cleaning would keep. */
  lemma CleanUrlsOfArticleLinks(hrefs: seq<string>)
    ensures CleanUrls(ArticleLinks(hrefs)) == CleanUrls(hrefs)
  {
    var f := ArticleLinks(hrefs);
    forall u | u in hrefs && IsArticleUrl(u) ensures u in f {
      ArticleMatchContainsArticlePath(u);
    }
    ProducedOfSubsequence(f, hrefs, IsArticleUrl, Clean);
    CleanUrlsDependOnlyOnCleanedSet(f, hrefs);
  }

  // ---------------------------------------------------------------- _expand_all_results

  /** `max_attempts` of `_expand_all_results`. */
  const MaxExpandAttempts := 50

  /**
   * What one pass of the expansion loop observes: a "Mehr anzeigen" button was clicked and
   * the page then held `count` article links; no button was visible; or the pass raised.
   */
  datatype Round = Clicked(count: nat) | NoButton | Raised

  datatype StopReason = NoMoreButton | NoProgress | AttemptsExhausted

  /** The link count last seen before pass `i`: the count after the latest counted click, or 0. */
  function LastCount(round: nat -> Round, i: nat): nat {
    if i == 0 then 0
    else if round(i - 1).Clicked? then round(i - 1).count
    else LastCount(round, i - 1)
  }

  /** Pass `i` neither found no button nor saw the count stand still, so the loop went on. */
  predicate Continues(round: nat -> Round, i: nat) {
    round(i).Raised? || (round(i).Clicked? && round(i).count != LastCount(round, i))
  }

  /**
   * `_expand_all_results`: `round(i)` is what pass `i` observes. Returns the number of
   * counted attempts and why the loop stopped.
   */
  method ExpandAllResults(round: nat -> Round) returns (attempts: nat, reason: StopReason)
    ensures attempts <= MaxExpandAttempts
    ensures forall i :: 0 <= i < attempts ==> Continues(round, i)
    ensures reason == AttemptsExhausted <==> attempts == MaxExpandAttempts
    ensures reason == NoMoreButton ==> round(attempts).NoButton?
    ensures reason == NoProgress ==>
      round(attempts).Clicked? && round(attempts).count == LastCount(round, attempts)
  {
    attempts := 0;
    var lastCount := 0;
    while attempts < MaxExpandAttempts
      invariant attempts <= MaxExpandAttempts
      invariant lastCount == LastCount(round, attempts)
      invariant forall i :: 0 <= i < attempts ==> Continues(round, i)
      decreases MaxExpandAttempts - attempts
    {
      match round(attempts)
      case NoButton =>
        reason := NoMoreButton;
        return;
      case Clicked(current) =>
        if current == lastCount {
          reason := NoProgress;
          return;
        }
        lastCount := current;
        attempts := attempts + 1;
      case Raised =>
        attempts := attempts + 1;
    }
    reason := AttemptsExhausted;
  }

  // ---------------------------------------------------------------- extract_article_urls

  /**
   * One attempt of `extract_article_urls`: after navigation the authentication check must
   * pass; the page is then expanded and its article links cleaned.
   */
  function ExtractArticleUrls(authenticated: bool, hrefs: seq<string>): (r: Result<seq<string>>)
    ensures r.Success? <==> authenticated
    ensures r.Success? ==> r.value == CleanUrls(hrefs)
    ensures r.Failure? ==> r.error == "Authentication failed - cannot access search page"
  {
    if !authenticated then Failure("Authentication failed - cannot access search page")
    else
      CleanUrlsOfArticleLinks(hrefs);
      Success(CleanUrls(ArticleLinks(hrefs)))
  }
}
