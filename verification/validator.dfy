/**
 * `ContentValidator`: the page-level check that no collapsed section is still visible, the
 * integer checks on each screenshot file, and the summary over the per-file results.
 */
module Validator {
  import opened Wrappers
  import opened Text
  import opened Dom

  // ---------------------------------------------------------------- validate_page

  /** The five selectors of `_check_hidden_sections`. */
  const HiddenSelectors: seq<string> := [
    "[data-e2e-test-id='section-content-is-hidden']",
    "text='Weiterlesen'",
    "text='Read more'",
    "text='Mehr anzeigen'",
    "text='Show more'"
  ]

  /** `_check_hidden_sections`: visible matches summed over the selectors that do not raise. */
  method CheckHiddenSections(p: Page) returns (hidden: nat)
    ensures hidden == VisibleTotal(p, HiddenSelectors)
  {
    hidden := CountVisibleTotal(p, HiddenSelectors);
  }

  /** The dictionary `validate_page` returns. */
  datatype PageReport = PageReport(
    expansionValid: bool,
    hiddenSectionsCount: nat,
    validationPassed: bool,
    errors: seq<string>)

  /**
   * The result logic of `validate_page` given what the hidden-section check did: returned
   * a count, or raised with the given message.
   */
  function ReportOf(check: Result<nat>): (r: PageReport)
    ensures r.validationPassed == r.expansionValid
    ensures check.Success? ==>
      r.hiddenSectionsCount == check.value &&
      (r.validationPassed <==> check.value == 0) &&
      (r.errors == [] <==> check.value == 0) &&
      (check.value > 0 ==> r.errors == ["Found " + NatToString(check.value) + " hidden sections"])
    ensures check.Failure? ==>
      !r.validationPassed && r.hiddenSectionsCount == 0 &&
      r.errors == ["Validation error: " + check.error]
  {
    match check
    case Success(hidden) =>
      PageReport(hidden == 0, hidden, hidden == 0,
        if hidden > 0 then ["Found " + NatToString(hidden) + " hidden sections"] else [])
    case Failure(e) =>
      PageReport(false, 0, false, ["Validation error: " + e])
  }

  /** What `validate_page` returns for page `p`. */
  function PageReportOf(p: Page): PageReport {
    ReportOf(Success(VisibleTotal(p, HiddenSelectors)))
  }

  /** `validate_page`. */
  method ValidatePage(p: Page) returns (r: PageReport)
    ensures r == PageReportOf(p)
  {
    var hidden := CheckHiddenSections(p);
    r := ReportOf(Success(hidden));
  }

  /** A page passes exactly when no working hidden-section selector has a visible match. */
  lemma PagePassesIff(p: Page)
    ensures PageReportOf(p).validationPassed <==>
      forall k :: 0 <= k < |HiddenSelectors| && HiddenSelectors[k] !in p.broken ==>
        NoneVisible(p.elements, HiddenSelectors[k])
    ensures PageReportOf(p).validationPassed <==> PageReportOf(p).errors == []
  {
    VisibleTotalZero(p, HiddenSelectors);
  }

  /**
   * `report.get(key, False)` for the boolean keys of the dictionary; every other key,
   * `is_valid` among them, is absent.
   */
  function GetFlag(r: PageReport, key: string): (b: bool)
    ensures b ==> key == "expansion_valid" || key == "validation_passed"
  {
    if key == "expansion_valid" then r.expansionValid
    else if key == "validation_passed" then r.validationPassed
    else false
  }

  /** `report.get(key, [])` for the list-valued key `errors`; every other key is absent. */
  function GetList(r: PageReport, key: string): (items: seq<string>)
    ensures key != "errors" ==> items == []
  {
    if key == "errors" then r.errors else []
  }

  // ---------------------------------------------------------------- _validate_single_screenshot

  /**
   * What the file system and Pillow report about one screenshot path: whether it exists,
   * its size in bytes, its pixel size or the error opening it, and the outcome of the
   * density comparison.
   */
  datatype ScreenshotFile = ScreenshotFile(
    path: string,
    present: bool,
    size: nat,
    image: Result<(nat, nat)>,
    density: Outcome)

  /** The per-file dictionary: `valid`, `file_size`, `dimensions` and `error`. */
  datatype ScreenshotResult = ScreenshotResult(
    file: string,
    valid: bool,
    fileSize: nat,
    dimensions: Option<(nat, nat)>,
    error: Option<string>)

  const MinFileSize := 1024
  const MinDimension := 100

  /** Python's `repr` of a pair of ints. */
  function PairText(d: (nat, nat)): string {
    "(" + NatToString(d.0) + ", " + NatToString(d.1) + ")"
  }

  /** `_validate_single_screenshot`: the checks in order, the first failing one gives the error. */
  function ValidateSingleScreenshot(f: ScreenshotFile): (r: ScreenshotResult)
    ensures r.file == f.path
    ensures r.valid <==> r.error.None?
    ensures r.valid <==>
      f.present && f.size >= MinFileSize && f.image.Success? &&
      f.image.value.0 >= MinDimension && f.image.value.1 >= MinDimension && f.density.Pass?
    ensures !f.present ==> r.error == Some("Screenshot file does not exist") && r.fileSize == 0
    ensures f.present ==> r.fileSize == f.size
    ensures f.present && f.size < MinFileSize ==>
      r.error == Some("Screenshot file too small: " + NatToString(f.size) + " bytes")
    ensures r.dimensions.Some? <==> f.present && f.size >= MinFileSize && f.image.Success?
    ensures r.dimensions.Some? ==> r.dimensions.value == f.image.value
    ensures r.dimensions.Some? && (r.dimensions.value.0 < MinDimension || r.dimensions.value.1 < MinDimension) ==>
      r.error == Some("Screenshot dimensions too small: " + PairText(r.dimensions.value))
  {
    if !f.present then
      ScreenshotResult(f.path, false, 0, None, Some("Screenshot file does not exist"))
    else if f.size < MinFileSize then
      ScreenshotResult(f.path, false, f.size, None,
        Some("Screenshot file too small: " + NatToString(f.size) + " bytes"))
    else if f.image.Failure? then
      ScreenshotResult(f.path, false, f.size, None, Some(f.image.error))
    else
      var dims := f.image.value;
      if dims.0 < MinDimension || dims.1 < MinDimension then
        ScreenshotResult(f.path, false, f.size, Some(dims),
          Some("Screenshot dimensions too small: " + PairText(dims)))
      else if f.density.Fail? then
        ScreenshotResult(f.path, false, f.size, Some(dims), Some(f.density.error))
      else
        ScreenshotResult(f.path, true, f.size, Some(dims), None)
  }

  /** `validate_screenshots`: one result per path, in input order. */
  method ValidateScreenshots(files: seq<ScreenshotFile>) returns (results: seq<ScreenshotResult>)
    ensures |results| == |files|
    ensures forall i :: 0 <= i < |files| ==> results[i] == ValidateSingleScreenshot(files[i])
  {
    results := [];
    for i := 0 to |files|
      invariant |results| == i
      invariant forall j :: 0 <= j < i ==> results[j] == ValidateSingleScreenshot(files[j])
    {
      results := results + [ValidateSingleScreenshot(files[i])];
    }
  }

  // ---------------------------------------------------------------- get_validation_summary

  datatype Summary = Summary(
    totalFiles: nat,
    validFiles: nat,
    failedFiles: nat,
    successRate: real,
    errors: seq<string>)

  /** `sum(1 for r in results if r.get("valid", False))`. */
  function ValidCount(rs: seq<ScreenshotResult>): (n: nat)
    ensures n <= |rs|
    ensures n == |rs| <==> forall i :: 0 <= i < |rs| ==> rs[i].valid
    ensures n == 0 <==> forall i :: 0 <= i < |rs| ==> !rs[i].valid
    ensures |rs| == 1 ==> (n == 1 <==> rs[0].valid)
  {
    if rs == [] then 0
    else
      var n := (if rs[0].valid then 1 else 0) + ValidCount(rs[1..]);
      assert forall i :: 1 <= i < |rs| ==> rs[i] == rs[1..][i - 1];
      n
  }

  /** An error `get_validation_summary` reports: that of an invalid result, when not empty. */
  predicate Reported(r: ScreenshotResult) {
    !r.valid && r.error.Some? && r.error.value != ""
  }

  /** The non-empty errors of the invalid results, in order. */
  function ReportedErrors(rs: seq<ScreenshotResult>): (errs: seq<string>)
    ensures |errs| <= |rs| - ValidCount(rs)
    ensures forall e :: e in errs ==> e != "" && exists i :: 0 <= i < |rs| && Reported(rs[i]) && rs[i].error.value == e
    ensures forall i :: 0 <= i < |rs| && Reported(rs[i]) ==> rs[i].error.value in errs
    ensures |rs| == 1 ==> errs == if Reported(rs[0]) then [rs[0].error.value] else []
  {
    if rs == [] then []
    else
      var rest := ReportedErrors(rs[1..]);
      forall e | e in rest
        ensures exists i :: 0 <= i < |rs| && Reported(rs[i]) && rs[i].error.value == e
      {
        var i :| 0 <= i < |rs[1..]| && Reported(rs[1..][i]) && rs[1..][i].error.value == e;
        assert rs[i + 1] == rs[1..][i];
      }
      forall i | 1 <= i < |rs| && Reported(rs[i]) ensures rs[i].error.value in rest {
        assert rs[1..][i - 1] == rs[i];
      }
      (if Reported(rs[0]) then [rs[0].error.value] else []) + rest
  }

  /** Results are counted one by one: the valid count of two runs of results adds up. */
  lemma {:induction false} ValidCountAppend(a: seq<ScreenshotResult>, b: seq<ScreenshotResult>)
    ensures ValidCount(a + b) == ValidCount(a) + ValidCount(b)
  {
    if a == [] {
      assert a + b == b;
    } else {
      assert (a + b)[1..] == a[1..] + b;
      ValidCountAppend(a[1..], b);
    }
  }

  /** Errors are listed in the order of the results: those of `a` before those of `b`. */
  lemma {:induction false} ReportedErrorsAppend(a: seq<ScreenshotResult>, b: seq<ScreenshotResult>)
    ensures ReportedErrors(a + b) == ReportedErrors(a) + ReportedErrors(b)
  {
    if a == [] {
      assert a + b == b;
    } else {
      assert (a + b)[1..] == a[1..] + b;
      ReportedErrorsAppend(a[1..], b);
    }
  }

  /** `valid / total` lies in [0, 1] and times `total` gives back `valid`. */
  lemma RateBounds(valid: nat, total: nat)
    requires 0 < total && valid <= total
    ensures 0.0 <= valid as real / total as real <= 1.0
    ensures (valid as real / total as real) * (total as real) == valid as real
  {
    var t := total as real;
    var q := valid as real / t;
    assert q * t == valid as real;
  }

  /** `valid_files / total_files if total_files > 0 else 0`, on reals. */
  function SuccessRate(valid: nat, total: nat): (rate: real)
    requires valid <= total
    ensures 0.0 <= rate <= 1.0
    ensures total == 0 ==> rate == 0.0
    ensures total > 0 ==> rate * (total as real) == valid as real
  {
    if total > 0 then
      RateBounds(valid, total);
      valid as real / total as real
    else 0.0
  }

  /** `get_validation_summary` (the average density is not modelled). */
  function ValidationSummary(rs: seq<ScreenshotResult>): (s: Summary)
    ensures s.totalFiles == |rs|
    ensures s.validFiles + s.failedFiles == s.totalFiles
    ensures s.validFiles == s.totalFiles <==> forall i :: 0 <= i < |rs| ==> rs[i].valid
    ensures s.successRate == SuccessRate(s.validFiles, s.totalFiles)
    ensures |s.errors| <= s.failedFiles
    ensures s.validFiles == ValidCount(rs) && s.errors == ReportedErrors(rs)
  {
    var total := |rs|;
    var valid := ValidCount(rs);
    Summary(total, valid, total - valid, SuccessRate(valid, total), ReportedErrors(rs))
  }

  /** When every invalid result carries a non-empty error, one error is listed per failure. */
  lemma {:induction false} ErrorsMatchFailures(rs: seq<ScreenshotResult>)
    requires forall i :: 0 <= i < |rs| && !rs[i].valid ==> rs[i].error.Some? && rs[i].error.value != ""
    ensures |ReportedErrors(rs)| == |rs| - ValidCount(rs)
  {
    if rs != [] {
      ErrorsMatchFailures(rs[1..]);
    }
  }

  /**
   * For results produced by `validate_screenshots`, whose failing checks all raise with a
   * message, the summary lists exactly one error per failed file.
   */
  lemma SummaryOfValidated(files: seq<ScreenshotFile>, rs: seq<ScreenshotResult>)
    requires |rs| == |files|
    requires forall i :: 0 <= i < |files| ==> rs[i] == ValidateSingleScreenshot(files[i])
    requires forall i :: 0 <= i < |files| ==>
      (files[i].image.Failure? ==> files[i].image.error != "") &&
      (files[i].density.Fail? ==> files[i].density.error != "")
    ensures |ValidationSummary(rs).errors| == ValidationSummary(rs).failedFiles
  {
    ErrorsMatchFailures(rs);
  }
}
