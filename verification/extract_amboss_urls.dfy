/**
 * The stand-alone `extract_amboss_urls.py` script (`FastURLExtractor`): it expands the
 * article search page by clicking "Mehr anzeigen" until no button is left or 50 attempts
 * were counted, cleans the collected links with the same rule as the package's search
 * extractor, and writes them one per line to a file.
 */
module ExtractAmbossUrls {
  import opened Wrappers
  import opened Text
  import opened Urls
  import FastProcessor
  import SearchExtractor

  // ---------------------------------------------------------------- _expand_all_results

  /** `max_attempts` of `_expand_all_results`. */
  const MaxAttempts := 50

  /** The five selectors tried, in order, for the "Mehr anzeigen" button. */
  const ButtonSelectors: seq<string> :=
    ["text='Mehr anzeigen'", "text='Show more'", "[data-testid='load-more-button']", ".load-more-button",
     "button:has-text('Mehr anzeigen')"]

  /** Trying one selector: it is not visible, it was clicked, or a step of the click raised. */
  datatype Probe = NotVisible | Clicked | ProbeRaised

  /**
   * One pass of the loop: the outcome of each selector tried, or an error raised outside
   * the selector loop.
   */
  datatype Pass = Probes(probes: seq<Probe>) | PassRaised

  /** The selector loop: selectors are tried in order until one is clicked; one that raises is passed over. */
  method TryButtons(probes: seq<Probe>) returns (buttonFound: bool, tried: nat)
    ensures buttonFound <==> Clicked in probes
    ensures tried <= |probes|
    ensures buttonFound ==> 0 < tried && probes[tried - 1] == Clicked && Clicked !in probes[..tried - 1]
    ensures !buttonFound ==> tried == |probes|
  {
    buttonFound := false;
    tried := 0;
    while tried < |probes|
      invariant tried <= |probes|
      invariant Clicked !in probes[..tried]
    {
      assert probes[..tried + 1] == probes[..tried] + [probes[tried]];
      tried := tried + 1;
      if probes[tried - 1] == Clicked {
        buttonFound := true;
        return;
      }
    }
    assert probes[..tried] == probes;
  }

  /** A pass that the loop counts as an attempt: a button was clicked, or the pass raised. */
  predicate Counted(p: Pass) {
    p.PassRaised? || Clicked in p.probes
  }

  /**
   * `_expand_all_results`: `pass(i)` is what pass `i` observes. The loop stops at the first
   * pass without a clickable button, or after 50 counted attempts; unlike the package's
   * search extractor it does not compare result counts, so clicks that load nothing new
   * are counted until the cap. `exhausted` is whether the cap was reached.
   */
  method ExpandAllResults(pass: nat -> Pass) returns (attempts: nat, exhausted: bool)
    ensures attempts <= MaxAttempts
    ensures forall i :: 0 <= i < attempts ==> Counted(pass(i))
    ensures exhausted <==> attempts == MaxAttempts
    ensures !exhausted ==> !Counted(pass(attempts))
    ensures (forall i :: 0 <= i < MaxAttempts ==> Counted(pass(i))) ==> exhausted
  {
    attempts := 0;
    while attempts < MaxAttempts
      invariant attempts <= MaxAttempts
      invariant forall i :: 0 <= i < attempts ==> Counted(pass(i))
      decreases MaxAttempts - attempts
    {
      match pass(attempts)
      case PassRaised =>
        attempts := attempts + 1;
      case Probes(probes) =>
        var buttonFound, _ := TryButtons(probes);
        if !buttonFound {
          break;
        }
        attempts := attempts + 1;
    }
    exhausted := attempts >= MaxAttempts;
  }

  // ---------------------------------------------------------------- extract_urls

  /**
   * `extract_urls`: after loading the search page the authentication check must pass; the
   * page is then expanded and its article links cleaned. Unlike the package's extractor the
   * call is not retried, and its error message starts with a cross mark.
   */
  function ExtractUrls(authenticated: bool, hrefs: seq<string>): (r: Result<seq<string>>)
    ensures r.Success? <==> authenticated
    ensures r.Success? ==> r.value == SearchExtractor.CleanUrls(hrefs)
    ensures r.Failure? ==> r.error == "\U{274c} Authentication failed - cannot access search page"
  {
    if !authenticated then Failure("\U{274c} Authentication failed - cannot access search page")
    else
      SearchExtractor.CleanUrlsOfArticleLinks(hrefs);
      Success(SearchExtractor.CleanUrls(SearchExtractor.ArticleLinks(hrefs)))
  }

  // ---------------------------------------------------------------- save_to_file

  lemma {:induction false} JoinLinesAppend(lines: seq<string>, line: string)
    ensures JoinLines(lines + [line]) == JoinLines(lines) + line + "\n"
    decreases |lines|
  {
    if lines == [] {
      assert [] + [line] == [line];
    } else {
      assert (lines + [line])[1..] == lines[1..] + [line];
      JoinLinesAppend(lines[1..], line);
    }
  }

  /**
   * `save_to_file`: `canOpen` is whether the file could be opened for writing. On success
   * each URL is written followed by a newline, in list order; otherwise nothing is written
   * and the call reports failure.
   */
  method SaveToFile(urls: seq<string>, canOpen: bool) returns (ok: bool, written: string)
    ensures ok <==> canOpen
    ensures ok ==> written == JoinLines(urls)
    ensures !ok ==> written == []
  {
    written := [];
    if !canOpen {
      return false, written;
    }
    var i := 0;
    while i < |urls|
      invariant i <= |urls|
      invariant written == JoinLines(urls[..i])
    {
      JoinLinesAppend(urls[..i], urls[i]);
      assert urls[..i + 1] == urls[..i] + [urls[i]];
      written := written + urls[i] + "\n";
      i := i + 1;
    }
    assert urls[..i] == urls;
    ok := true;
  }

  /** A line starting with `h` is neither blank nor a header line. */
  lemma NotSkipped(u: string)
    requires u != [] && u[0] == 'h'
    ensures !FastProcessor.Skipped(u)
  {
    assert !("AMBOSS All Article URLs" <= u) by {
      assert "AMBOSS All Article URLs"[0] == 'A';
    }
    assert !("Generated on:" <= u) by {
      assert "Generated on:"[0] == 'G';
    }
    assert !("Total URLs:" <= u) by {
      assert "Total URLs:"[0] == 'T';
    }
  }

  /** A clean article URL without whitespace is read back from its own line. */
  lemma LineReadsBack(u: string)
    requires FastProcessor.IsCleanArticleUrl(u)
    requires forall k :: 0 <= k < |u| ==> !IsSpace(u[k])
    ensures FastProcessor.LineUrl(u + "\n") == Some(u)
  {
    assert ArticlePrefix <= u;
    assert u[0] == 'h' by {
      assert ArticlePrefix[0] == 'h';
    }
    StripLine(u);
    NotSkipped(u);
    assert FastProcessor.Candidate(u) == u;
  }

  /**
   * What `save_to_file` writes from clean article URLs is read back by the processors'
   * `extract_urls_from_file`, in the same order.
   */
  lemma SavedListReadsBack(urls: seq<string>)
    requires forall k :: 0 <= k < |urls| ==> FastProcessor.IsCleanArticleUrl(urls[k])
    requires forall k, j :: 0 <= k < |urls| && 0 <= j < |urls[k]| ==> !IsSpace(urls[k][j])
    ensures FastProcessor.UrlsOfLines(FileLines(JoinLines(urls))) == urls
  {
    forall k | 0 <= k < |urls|
      ensures '\n' !in urls[k] && FastProcessor.LineUrl(urls[k] + "\n") == Some(urls[k])
    {
      assert IsSpace('\n');
      LineReadsBack(urls[k]);
    }
    LinesReadBack(urls);
  }

  /** Lines that each read back as themselves are read back, in order, from the joined text. */
  lemma {:induction false} LinesReadBack(urls: seq<string>)
    requires forall k :: 0 <= k < |urls| ==> '\n' !in urls[k] && FastProcessor.LineUrl(urls[k] + "\n") == Some(urls[k])
    ensures FastProcessor.UrlsOfLines(FileLines(JoinLines(urls))) == urls
    decreases |urls|
  {
    if urls != [] {
      LinesReadBack(urls[1..]);
      LineReadsBackFirst(urls);
    }
  }

  /** The first line is read back in front of what the rest reads back to. */
  lemma LineReadsBackFirst(urls: seq<string>)
    requires urls != [] && '\n' !in urls[0] && FastProcessor.LineUrl(urls[0] + "\n") == Some(urls[0])
    requires FastProcessor.UrlsOfLines(FileLines(JoinLines(urls[1..]))) == urls[1..]
    ensures FastProcessor.UrlsOfLines(FileLines(JoinLines(urls))) == urls
  {
    var u, rest := urls[0], urls[1..];
    var lines := FileLines(JoinLines(rest));
    assert FileLines(JoinLines(urls)) == [u + "\n"] + lines by {
      FileLinesOfJoinCons(urls);
    }
    assert FastProcessor.UrlsOfLines([u + "\n"] + lines) == [u] + rest by {
      FastProcessor.UrlsOfOneLine(u + "\n");
      FastProcessor.UrlsOfLinesAppend([u + "\n"], lines);
    }
    SplitFirst(urls);
  }
}
