/**
 * `DatabaseManager`: the SQLite job store. Three tables: `urls` (one row per article slug,
 * with a status restricted by a CHECK constraint), `runs` (one row per run id and slug,
 * referencing `urls`) and `images` (one row per captured screenshot, referencing `runs`).
 * Foreign keys are switched on when the connection opens. Rows are kept in insertion
 * (rowid) order, which is the order an unordered `SELECT` returns them in.
 */
module Db {
  import opened Wrappers
  import opened Text
  import opened Sorting

  /** The values the CHECK constraint on `urls.status` admits. */
  const StatusList: seq<string> := ["pending", "processing", "done", "failed_expansion", "failed_validation"]
  const Statuses: set<string> := {"pending", "processing", "done", "failed_expansion", "failed_validation"}

  const UniqueImageError := "UNIQUE constraint failed: images.run_id, images.slug, images.idx"
  const ForeignKeyError := "FOREIGN KEY constraint failed"
  /**
   * Stands in for the message of a violated CHECK on `urls.status`: the constraint is unnamed,
   * and SQLite words that message differently between versions, so no contract depends on it.
   */
  const CheckStatusError := "CHECK constraint failed: status"

  /** A `urls` row without its primary key (the slug) and its timestamp. */
  datatype UrlRow = UrlRow(url: string, status: string, lastError: Option<string>, retryCount: nat)

  /** A `runs` row without its key `(run_id, slug)` and its timestamps. */
  datatype RunRow = RunRow(finished: bool, ok: Option<bool>, errorMsg: Option<string>)

  /** An `images` row without its timestamp. */
  datatype ImageRow = ImageRow(runId: string, slug: string, filename: string, idx: int, sectionTitle: string)

  /** What `get_stats` returns. */
  datatype Stats = Stats(urlsByStatus: map<string, nat>, totalUrls: nat, totalRuns: nat, totalImages: nat)

  /** No element occurs twice: each one is new with respect to those before it. */
  predicate Distinct<T(==)>(s: seq<T>) {
    s == [] || (Distinct(s[..|s| - 1]) && s[|s| - 1] !in s[..|s| - 1])
  }

  /** The same, stated over positions. */
  lemma {:induction false} DistinctIndices<T>(s: seq<T>)
    ensures Distinct(s) <==> forall i, j :: 0 <= i < j < |s| ==> s[i] != s[j]
  {
    if s != [] {
      var n := |s| - 1;
      var init := s[..n];
      DistinctIndices(init);
      if Distinct(s) {
        forall i, j | 0 <= i < j < |s| ensures s[i] != s[j] {
          if j < n {
            assert s[i] == init[i] && s[j] == init[j];
          } else {
            assert s[i] in init;
          }
        }
      }
      if forall i, j :: 0 <= i < j < |s| ==> s[i] != s[j] {
        assert forall i, j :: 0 <= i < j < n ==> init[i] != init[j];
        forall i | 0 <= i < n ensures init[i] != s[n] {
          assert init[i] == s[i];
        }
      }
    }
  }

  /** A sequence without repetitions has as many elements as its set. */
  lemma {:induction false} DistinctCard<T>(s: seq<T>)
    requires Distinct(s)
    ensures |set x | x in s| == |s|
  {
    if s != [] {
      var init := s[..|s| - 1];
      var last := s[|s| - 1];
      assert Distinct(init);
      DistinctCard(init);
      assert (set x | x in s) == (set x | x in init) + {last};
      assert last !in (set x | x in init);
    }
  }

  /** A sequence without repetitions is no longer than any set holding its elements. */
  lemma DistinctWithin<T>(s: seq<T>, t: set<T>)
    requires Distinct(s) && forall x :: x in s ==> x in t
    ensures |s| <= |t|
  {
    DistinctCard(s);
    assert (set x | x in s) <= t;
    SubsetCard((set x | x in s), t);
  }

  lemma SubsetCard<T>(a: set<T>, b: set<T>)
    requires a <= b
    ensures |a| <= |b|
  {
    assert b == a + (b - a);
  }

  /** The slugs of `slugs` whose row has status `st`, in the same order: `WHERE status = st`. */
  function WithStatus(slugs: seq<string>, urls: map<string, UrlRow>, st: string): (r: seq<string>)
    ensures |r| <= |slugs|
  {
    if slugs == [] then []
    else
      var last := slugs[|slugs| - 1];
      WithStatus(slugs[..|slugs| - 1], urls, st) + (if last in urls && urls[last].status == st then [last] else [])
  }

  lemma {:induction false} WithStatusMembers(slugs: seq<string>, urls: map<string, UrlRow>, st: string)
    ensures forall s :: s in WithStatus(slugs, urls, st) <==> s in slugs && s in urls && urls[s].status == st
  {
    if slugs != [] {
      var init := slugs[..|slugs| - 1];
      WithStatusMembers(init, urls, st);
      assert forall s :: s in slugs <==> s in init || s == slugs[|slugs| - 1];
    }
  }

  lemma {:induction false} WithStatusDistinct(slugs: seq<string>, urls: map<string, UrlRow>, st: string)
    requires Distinct(slugs)
    ensures Distinct(WithStatus(slugs, urls, st))
  {
    if slugs != [] {
      var init := slugs[..|slugs| - 1];
      var w := WithStatus(init, urls, st);
      WithStatusDistinct(init, urls, st);
      WithStatusMembers(init, urls, st);
      var r := WithStatus(slugs, urls, st);
      var last := slugs[|slugs| - 1];
      if r != w {
        assert r == w + [last] && r[..|r| - 1] == w;
        assert last !in init;
      }
    }
  }

  /** `status LIKE 'failed_%'`: the ASCII letters of "failed" in any case, then at least one character. */
  predicate LikeFailed(status: string) {
    |status| >= 7 && Lower(status[..6]) == "failed"
  }

  /** On the statuses the CHECK constraint admits, the pattern picks out the two failure statuses. */
  lemma LikeFailedOnStatuses(status: string)
    requires status in Statuses
    ensures LikeFailed(status) <==> status == "failed_expansion" || status == "failed_validation"
  {
    if status == "failed_expansion" || status == "failed_validation" {
      var head := status[..6];
      assert head == "failed" by {
        assert |head| == 6 && forall i :: 0 <= i < 6 ==> head[i] == "failed"[i];
      }
      assert Lower(head) == head;
    } else if status == "processing" {
      assert Lower(status[..6])[0] == 'p';
    }
  }

  /** The slugs of `slugs` whose status matches `LIKE 'failed_%'`, in the same order. */
  function FailedOf(slugs: seq<string>, urls: map<string, UrlRow>): (r: seq<string>)
    ensures |r| <= |slugs|
  {
    if slugs == [] then []
    else
      var last := slugs[|slugs| - 1];
      FailedOf(slugs[..|slugs| - 1], urls) + (if last in urls && LikeFailed(urls[last].status) then [last] else [])
  }

  lemma {:induction false} FailedOfMembers(slugs: seq<string>, urls: map<string, UrlRow>)
    ensures forall s :: s in FailedOf(slugs, urls) <==> s in slugs && s in urls && LikeFailed(urls[s].status)
  {
    if slugs != [] {
      var init := slugs[..|slugs| - 1];
      FailedOfMembers(init, urls);
      assert forall s :: s in slugs <==> s in init || s == slugs[|slugs| - 1];
    }
  }

  /** With statuses the CHECK constraint admits, the pattern selects exactly the failed rows. */
  lemma FailedOfStatuses(slugs: seq<string>, urls: map<string, UrlRow>)
    requires forall s :: s in urls ==> urls[s].status in Statuses
    ensures forall s :: s in FailedOf(slugs, urls) ==>
      s in urls && (urls[s].status == "failed_expansion" || urls[s].status == "failed_validation")
  {
    FailedOfMembers(slugs, urls);
    forall s | s in FailedOf(slugs, urls)
      ensures s in urls && (urls[s].status == "failed_expansion" || urls[s].status == "failed_validation")
    {
      LikeFailedOnStatuses(urls[s].status);
    }
  }

  lemma {:induction false} FailedOfDistinct(slugs: seq<string>, urls: map<string, UrlRow>)
    requires Distinct(slugs)
    ensures Distinct(FailedOf(slugs, urls))
  {
    if slugs != [] {
      var init := slugs[..|slugs| - 1];
      var w := FailedOf(init, urls);
      FailedOfDistinct(init, urls);
      FailedOfMembers(init, urls);
      var r := FailedOf(slugs, urls);
      var last := slugs[|slugs| - 1];
      if r != w {
        assert r == w + [last] && r[..|r| - 1] == w;
        assert last !in init;
      }
    }
  }

  /** The number of rows whose status lies in `sts`, summed status by status. */
  function StatusTotal(slugs: seq<string>, urls: map<string, UrlRow>, sts: seq<string>): nat {
    if sts == [] then 0
    else StatusTotal(slugs, urls, sts[..|sts| - 1]) + |WithStatus(slugs, urls, sts[|sts| - 1])|
  }

  /** How many entries of `sts` equal `st`. */
  function Hits(st: string, sts: seq<string>): nat {
    if sts == [] then 0
    else Hits(st, sts[..|sts| - 1]) + (if sts[|sts| - 1] == st then 1 else 0)
  }

  lemma {:induction false} HitsOfDistinct(st: string, sts: seq<string>)
    requires Distinct(sts)
    ensures Hits(st, sts) == if st in sts then 1 else 0
  {
    if sts != [] {
      var init := sts[..|sts| - 1];
      assert Distinct(init);
      HitsOfDistinct(st, init);
      assert forall x :: x in sts <==> x in init || x == sts[|sts| - 1];
    }
  }

  /** Adding a row adds one to the total of every status it carries. */
  lemma {:induction false} StatusTotalStep(slugs: seq<string>, urls: map<string, UrlRow>, sts: seq<string>)
    requires slugs != [] && slugs[|slugs| - 1] in urls
    ensures StatusTotal(slugs, urls, sts) ==
      StatusTotal(slugs[..|slugs| - 1], urls, sts) + Hits(urls[slugs[|slugs| - 1]].status, sts)
  {
    if sts != [] {
      StatusTotalStep(slugs, urls, sts[..|sts| - 1]);
    }
  }

  /** Summing the per-status counts over every admitted status counts every row once. */
  lemma {:induction false} StatusTotalAll(slugs: seq<string>, urls: map<string, UrlRow>, sts: seq<string>)
    requires Distinct(sts)
    requires forall s :: s in slugs ==> s in urls && urls[s].status in sts
    ensures StatusTotal(slugs, urls, sts) == |slugs|
  {
    if slugs == [] {
      StatusTotalEmpty(urls, sts);
    } else {
      var init := slugs[..|slugs| - 1];
      assert forall s :: s in init ==> s in slugs;
      StatusTotalAll(init, urls, sts);
      StatusTotalStep(slugs, urls, sts);
      HitsOfDistinct(urls[slugs[|slugs| - 1]].status, sts);
    }
  }

  lemma {:induction false} StatusTotalEmpty(urls: map<string, UrlRow>, sts: seq<string>)
    ensures StatusTotal([], urls, sts) == 0
  {
    if sts != [] {
      StatusTotalEmpty(urls, sts[..|sts| - 1]);
    }
  }

  /** `dict(...).get(st, 0)`. */
  function CountIn(m: map<string, nat>, st: string): nat {
    if st in m then m[st] else 0
  }

  /** The summed counts of a statistics map over `sts`. */
  function MapTotal(m: map<string, nat>, sts: seq<string>): nat {
    if sts == [] then 0 else MapTotal(m, sts[..|sts| - 1]) + CountIn(m, sts[|sts| - 1])
  }

  /**
   * A row after `update_url_status`: the new status, and a truthy error recorded with the
   * retry count raised by one.
   */
  function StatusUpdated(was: UrlRow, status: string, error: Option<string>): UrlRow {
    if error.Some? && error.value != "" then UrlRow(was.url, status, error, was.retryCount + 1)
    else UrlRow(was.url, status, was.lastError, was.retryCount)
  }

  /** The `urls` table: one row per slug in `order`, each with a status the CHECK constraint admits. */
  ghost predicate UrlsOk(urls: map<string, UrlRow>, order: seq<string>) {
    Distinct(order) &&
    (forall s :: s in urls <==> s in order) &&
    (forall s :: s in urls ==> urls[s].status in Statuses)
  }

  /** The foreign key of `runs`: every run belongs to a slug of `urls`. */
  ghost predicate RunsOk(runs: map<(string, string), RunRow>, urls: map<string, UrlRow>) {
    forall k :: k in runs ==> k.1 in urls
  }

  /** The foreign key and the primary key `(run_id, slug, idx)` of `images`. */
  ghost predicate ImagesOk(images: seq<ImageRow>, runs: map<(string, string), RunRow>) {
    (forall i :: 0 <= i < |images| ==> (images[i].runId, images[i].slug) in runs) &&
    (forall i, j :: 0 <= i < j < |images| ==>
      (images[i].runId, images[i].slug, images[i].idx) != (images[j].runId, images[j].slug, images[j].idx))
  }

  /** The SQLite job store. */
  class DatabaseManager {
    var urls: map<string, UrlRow>
    /** The slugs of `urls` in rowid order. */
    var order: seq<string>
    /** `runs`, keyed by `(run_id, slug)`. */
    var runs: map<(string, string), RunRow>
    var images: seq<ImageRow>
    /** Every status change an UPDATE of `urls` made, as `(slug, status)`, oldest first. */
    ghost var statusLog: seq<(string, string)>

    /** The schema's constraints: primary keys, the status CHECK and both foreign keys. */
    ghost predicate Valid()
      reads this
    {
      UrlsOk(urls, order) && RunsOk(runs, urls) && ImagesOk(images, runs)
    }

    /** Opening the connection on a fresh file: `_create_tables` makes three empty tables. */
    constructor ()
      ensures Valid()
      ensures urls == map[] && order == [] && runs == map[] && images == [] && statusLog == []
    {
      urls := map[];
      order := [];
      runs := map[];
      images := [];
      statusLog := [];
    }

    /** `add_url`: `INSERT OR IGNORE`, so an existing slug keeps its row. */
    method AddUrl(slug: string, url: string) returns (ok: bool)
      requires Valid()
      modifies this`urls, this`order
      ensures Valid() && ok
      ensures slug in old(urls) ==> urls == old(urls) && order == old(order)
      ensures slug !in old(urls) ==>
        urls == old(urls)[slug := UrlRow(url, "pending", None, 0)] && order == old(order) + [slug]
    {
      if slug !in urls {
        urls := urls[slug := UrlRow(url, "pending", None, 0)];
        order := order + [slug];
      }
      ok := true;
    }

    /** `get_pending_urls`: pending rows in rowid order; only a positive limit truncates. */
    function PendingUrls(limit: Option<int>): (r: seq<(string, string)>)
      reads this
      requires Valid()
      ensures forall k :: 0 <= k < |r| ==> r[k].0 in urls && urls[r[k].0].status == "pending" && r[k].1 == urls[r[k].0].url
      ensures limit.Some? && limit.value > 0 ==> |r| <= limit.value
    {
      var slugs := WithStatus(order, urls, "pending");
      var n := if limit.Some? && 0 < limit.value < |slugs| then limit.value else |slugs|;
      WithStatusMembers(order, urls, "pending");
      var u := urls;
      seq(n, k requires 0 <= k < n => (slugs[k], u[slugs[k]].url))
    }

    /** `get_failed_urls`: rows whose status matches `LIKE 'failed_%'`, with their last error. */
    function FailedUrls(): (r: seq<(string, string, Option<string>)>)
      reads this
      requires Valid()
      ensures forall k :: 0 <= k < |r| ==>
        r[k].0 in urls &&
        (urls[r[k].0].status == "failed_expansion" || urls[r[k].0].status == "failed_validation") &&
        r[k].1 == urls[r[k].0].url && r[k].2 == urls[r[k].0].lastError
    {
      var slugs := FailedOf(order, urls);
      FailedOfStatuses(order, urls);
      var u := urls;
      seq(|slugs|, k requires 0 <= k < |slugs| => (slugs[k], u[slugs[k]].url, u[slugs[k]].lastError))
    }

    /**
     * `update_url_status`: an UPDATE on the slug's row; a truthy error also records it and
     * bumps the retry count. A status the CHECK constraint refuses raises and changes
     * nothing; a slug without a row is matched by nothing and nothing changes.
     */
    method UpdateUrlStatus(slug: string, status: string, error: Option<string>) returns (o: Outcome)
      requires Valid()
      modifies this`urls, this`statusLog
      ensures Valid()
      ensures o.Fail? <==> slug in old(urls) && status !in Statuses
      ensures o.Fail? ==> o.error == CheckStatusError
      ensures slug !in old(urls) || o.Fail? ==> urls == old(urls) && statusLog == old(statusLog)
      ensures slug in old(urls) && o.Pass? ==>
        urls == old(urls)[slug := StatusUpdated(old(urls)[slug], status, error)] &&
        statusLog == old(statusLog) + [(slug, status)]
    {
      if slug !in urls {
        o := Pass;
      } else if status !in Statuses {
        o := Fail(CheckStatusError);
      } else {
        var was := urls[slug];
        if error.Some? && error.value != "" {
          urls := urls[slug := UrlRow(was.url, status, error, was.retryCount + 1)];
        } else {
          urls := urls[slug := UrlRow(was.url, status, was.lastError, was.retryCount)];
        }
        statusLog := statusLog + [(slug, status)];
        o := Pass;
      }
    }

    /** `start_run`: inserts an open run; a repeated key or an unknown slug raises and yields False. */
    method StartRun(runId: string, slug: string) returns (ok: bool)
      requires Valid()
      modifies this`runs
      ensures Valid()
      ensures ok <==> (runId, slug) !in old(runs) && slug in urls
      ensures runs == if ok then old(runs)[(runId, slug) := RunRow(false, None, None)] else old(runs)
    {
      ok := (runId, slug) !in runs && slug in urls;
      if ok {
        runs := runs[(runId, slug) := RunRow(false, None, None)];
      }
    }

    /** `finish_run`: closes the matching run, if there is one. */
    method FinishRun(runId: string, slug: string, ok: bool, errorMsg: Option<string>)
      requires Valid()
      modifies this`runs
      ensures Valid()
      ensures runs == if (runId, slug) in old(runs)
        then old(runs)[(runId, slug) := RunRow(true, Some(ok), errorMsg)] else old(runs)
    {
      if (runId, slug) in runs {
        runs := runs[(runId, slug) := RunRow(true, Some(ok), errorMsg)];
      }
    }

    /** The primary key `(run_id, slug, idx)` is already taken. */
    predicate ImageKeyTaken(runId: string, slug: string, idx: int)
      reads this
    {
      exists i :: 0 <= i < |images| && images[i].runId == runId && images[i].slug == slug && images[i].idx == idx
    }

    /**
     * `add_image`: the INSERT raises on a repeated primary key, and otherwise when the run
     * it refers to does not exist; it is a plain INSERT, so the exception reaches the caller.
     */
    method AddImage(runId: string, slug: string, filename: string, idx: int, sectionTitle: string)
      returns (o: Outcome)
      requires Valid()
      modifies this`images
      ensures Valid()
      ensures o.Fail? <==> old(ImageKeyTaken(runId, slug, idx)) || (runId, slug) !in runs
      ensures old(ImageKeyTaken(runId, slug, idx)) ==> o == Fail(UniqueImageError)
      ensures !old(ImageKeyTaken(runId, slug, idx)) && (runId, slug) !in runs ==> o == Fail(ForeignKeyError)
      ensures images == if o.Pass? then old(images) + [ImageRow(runId, slug, filename, idx, sectionTitle)] else old(images)
    {
      if ImageKeyTaken(runId, slug, idx) {
        o := Fail(UniqueImageError);
      } else if (runId, slug) !in runs {
        o := Fail(ForeignKeyError);
      } else {
        images := images + [ImageRow(runId, slug, filename, idx, sectionTitle)];
        o := Pass;
      }
    }

    /** `get_run_images`: the run's image rows, `ORDER BY idx`. */
    function RunImages(runId: string, slug: string): (r: seq<ImageRow>)
      reads this
      ensures Ascending(r, (row: ImageRow) => row.idx)
      ensures multiset(r) == multiset(RowsOf(images, runId, slug))
      ensures forall k :: 0 <= k < |r| ==> r[k].runId == runId && r[k].slug == slug
    {
      var rows := RowsOf(images, runId, slug);
      var r := SortByKey(rows, (row: ImageRow) => row.idx);
      forall k | 0 <= k < |r| ensures r[k].runId == runId && r[k].slug == slug {
        assert r[k] in multiset(rows);
      }
      r
    }

    /** `get_stats`: the per-status counts of the present statuses and the size of each table. */
    function GetStats(): (st: Stats)
      reads this
      requires Valid()
      ensures st.totalUrls == |order| && st.totalRuns == |runs| && st.totalImages == |images|
      ensures forall s :: s in st.urlsByStatus <==> exists slug :: slug in urls && urls[slug].status == s
      ensures forall s :: s in st.urlsByStatus ==> st.urlsByStatus[s] > 0
      ensures forall s :: s in st.urlsByStatus ==>
        st.urlsByStatus[s] == |set slug | slug in urls && urls[slug].status == s|
    {
      var present := set slug | slug in urls :: urls[slug].status;
      var byStatus := map s | s in present :: |WithStatus(order, urls, s)|;
      forall s | s in present
        ensures byStatus[s] > 0
        ensures byStatus[s] == |set slug | slug in urls && urls[slug].status == s|
      {
        var w := WithStatus(order, urls, s);
        WithStatusMembers(order, urls, s);
        WithStatusDistinct(order, urls, s);
        DistinctCard(w);
        assert (set x | x in w) == (set slug | slug in urls && urls[slug].status == s);
        var slug :| slug in urls && urls[slug].status == s;
        assert slug in w;
      }
      DistinctCard(order);
      assert (set s | s in order) == urls.Keys;
      Stats(byStatus, |urls|, |runs|, |images|)
    }
  }

  /** The image rows of one run, in rowid order. */
  function RowsOf(images: seq<ImageRow>, runId: string, slug: string): (r: seq<ImageRow>)
    ensures forall k :: 0 <= k < |r| ==> r[k].runId == runId && r[k].slug == slug
    ensures forall row :: row in r ==> row in images
  {
    if images == [] then []
    else
      var last := images[|images| - 1];
      RowsOf(images[..|images| - 1], runId, slug) + (if last.runId == runId && last.slug == slug then [last] else [])
  }

  /** The rows a query for one run returns: exactly that run's rows. */
  lemma {:induction false} RowsOfMembers(images: seq<ImageRow>, runId: string, slug: string)
    ensures forall row :: row in RowsOf(images, runId, slug) <==> row in images && row.runId == runId && row.slug == slug
  {
    if images != [] {
      var init := images[..|images| - 1];
      RowsOfMembers(init, runId, slug);
      assert forall row :: row in images <==> row in init || row == images[|images| - 1];
    }
  }

  /**
   * The statistics account for every url row: the per-status counts over the admitted
   * statuses add up to `total_urls`.
   */
  lemma StatsAddUp(db: DatabaseManager)
    requires db.Valid()
    ensures MapTotal(db.GetStats().urlsByStatus, StatusList) == db.GetStats().totalUrls
  {
    var st := db.GetStats();
    forall s | s in StatusList ensures CountIn(st.urlsByStatus, s) == |WithStatus(db.order, db.urls, s)| {
      WithStatusMembers(db.order, db.urls, s);
      var w := WithStatus(db.order, db.urls, s);
      if w != [] {
        assert w[0] in w;
      }
    }
    MapTotalIsStatusTotal(st.urlsByStatus, db.order, db.urls, StatusList);
    StatusListDistinct();
    StatusTotalAll(db.order, db.urls, StatusList);
  }

  /** The five statuses are different strings: each differs from the others at a position shown. */
  lemma StatusListDistinct()
    ensures Distinct(StatusList)
  {
    DistinctIndices(StatusList);
    var l := StatusList;
    assert l[0][1] == 'e' && l[1][1] == 'r' && l[2][0] == 'd' && l[3][7] == 'e' && l[4][7] == 'v';
    assert l[0][0] == l[1][0] == 'p' && l[3][0] == l[4][0] == 'f';
  }

  lemma {:induction false} MapTotalIsStatusTotal(m: map<string, nat>, slugs: seq<string>, urls: map<string, UrlRow>, sts: seq<string>)
    requires forall s :: s in sts ==> CountIn(m, s) == |WithStatus(slugs, urls, s)|
    ensures MapTotal(m, sts) == StatusTotal(slugs, urls, sts)
  {
    if sts != [] {
      MapTotalIsStatusTotal(m, slugs, urls, sts[..|sts| - 1]);
    }
  }

  /** Without a positive limit, every pending row is returned. */
  lemma PendingUrlsAll(db: DatabaseManager, limit: Option<int>)
    requires db.Valid()
    requires limit.None? || limit.value <= 0
    ensures forall s :: s in db.urls && db.urls[s].status == "pending" ==>
      exists k :: 0 <= k < |db.PendingUrls(limit)| && db.PendingUrls(limit)[k].0 == s
  {
    var slugs := WithStatus(db.order, db.urls, "pending");
    WithStatusMembers(db.order, db.urls, "pending");
    forall s | s in db.urls && db.urls[s].status == "pending"
      ensures exists k :: 0 <= k < |db.PendingUrls(limit)| && db.PendingUrls(limit)[k].0 == s
    {
      var k :| 0 <= k < |slugs| && slugs[k] == s;
      assert db.PendingUrls(limit)[k].0 == s;
    }
  }

  /** The slugs of the rows `get_pending_urls` returns. */
  function SlugsOf(rows: seq<(string, string)>): (slugs: seq<string>)
    ensures |slugs| == |rows| && forall k :: 0 <= k < |rows| ==> slugs[k] == rows[k].0
  {
    seq(|rows|, k requires 0 <= k < |rows| => rows[k].0)
  }

  /** The slugs of the rows `get_failed_urls` returns: those of their `(slug, url)` part. */
  function FailedSlugs(rows: seq<(string, string, Option<string>)>): (slugs: seq<string>)
    ensures |slugs| == |rows| && forall k :: 0 <= k < |rows| ==> slugs[k] == rows[k].0
  {
    SlugsOf(seq(|rows|, k requires 0 <= k < |rows| => (rows[k].0, rows[k].1)))
  }

  /** No slug is returned twice. */
  lemma PendingUrlsDistinct(db: DatabaseManager, limit: Option<int>)
    requires db.Valid()
    ensures Distinct(SlugsOf(db.PendingUrls(limit)))
    ensures var slugs := SlugsOf(db.PendingUrls(limit));
      forall k :: 0 <= k < |slugs| ==> slugs[k] in db.urls
  {
    var slugs := WithStatus(db.order, db.urls, "pending");
    WithStatusDistinct(db.order, db.urls, "pending");
    DistinctIndices(slugs);
    DistinctIndices(SlugsOf(db.PendingUrls(limit)));
  }

  /** With `n` distinct pending slugs known, `LIMIT n` returns exactly `n` rows. */
  lemma PendingUrlsFilled(db: DatabaseManager, known: seq<string>)
    requires db.Valid()
    requires Distinct(known) && |known| > 0
    requires forall s :: s in known ==> s in db.urls && db.urls[s].status == "pending"
    ensures |db.PendingUrls(Some(|known|))| == |known|
  {
    var slugs := WithStatus(db.order, db.urls, "pending");
    WithStatusMembers(db.order, db.urls, "pending");
    WithStatusDistinct(db.order, db.urls, "pending");
    DistinctCard(slugs);
    DistinctWithin(known, set x | x in slugs);
  }

  /** No failed slug is returned twice. */
  lemma FailedUrlsDistinct(db: DatabaseManager)
    requires db.Valid()
    ensures Distinct(FailedSlugs(db.FailedUrls()))
  {
    FailedOfDistinct(db.order, db.urls);
    assert FailedSlugs(db.FailedUrls()) == FailedOf(db.order, db.urls);
  }

  /** The failed rows, all of them. */
  lemma FailedUrlsComplete(db: DatabaseManager)
    requires db.Valid()
    ensures forall s :: s in db.urls && (db.urls[s].status == "failed_expansion" || db.urls[s].status == "failed_validation") ==>
      exists k :: 0 <= k < |db.FailedUrls()| && db.FailedUrls()[k].0 == s
  {
    var slugs := FailedOf(db.order, db.urls);
    FailedOfMembers(db.order, db.urls);
    assert FailedSlugs(db.FailedUrls()) == slugs;
    forall s | s in db.urls && (db.urls[s].status == "failed_expansion" || db.urls[s].status == "failed_validation")
      ensures exists k :: 0 <= k < |db.FailedUrls()| && db.FailedUrls()[k].0 == s
    {
      LikeFailedOnStatuses(db.urls[s].status);
      var k :| 0 <= k < |slugs| && slugs[k] == s;
      assert db.FailedUrls()[k].0 == s;
    }
  }
}
