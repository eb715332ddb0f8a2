/**
 * `URLDiscoverer`: a crawler that starts from a few index pages of the site, collects every
 * article URL the configured pattern finds in each fetched page, follows the page's links
 * breadth first without fetching any URL twice, and stores each article's slug in the job
 * store. The web is given as a map from URL to the page text the retried fetch returns;
 * a URL absent from it is one whose fetch fails.
 */
module Discover {
  import opened Wrappers
  import opened Text
  import opened Urls
  import opened LexOrder
  import Db

  // ---------------------------------------------------------------- the slug pattern

  /** `re.compile(settings.article_pattern).match(u)` as configured: the slug class is `[a-z0-9-]`. */
  function MatchSlugPatternAsWritten(u: string): Option<ArticleMatch> {
    MatchConfigured(u, IsLowerSlugChar)
  }

  /** The configured pattern with the article ids' own class `[a-zA-Z0-9-]`. */
  function MatchSlugPattern(u: string): Option<ArticleMatch> {
    MatchConfigured(u, IsSlugChar)
  }

  /** The id test of the repository, `--0D-i`. */
  const TestUrl := ArticlePrefix + "--0D-i"

  /** As configured, the pattern cuts the id `--0D-i` at its first capital letter. */
  lemma TestUrlCutAsWritten()
    ensures MatchSlugPatternAsWritten(TestUrl).Some?
    ensures MatchSlugPatternAsWritten(TestUrl).value.slug == "--0"
  {
    var t := TestUrl[|ArticlePrefix|..];
    assert t == "--0D-i";
    assert LeadingCount(t, IsLowerSlugChar) == 3 by {
      assert t[1..] == "-0D-i" && t[1..][1..] == "0D-i" && t[1..][1..][1..] == "D-i";
      assert LeadingCount("D-i", IsLowerSlugChar) == 0;
      assert LeadingCount("0D-i", IsLowerSlugChar) == 1;
      assert LeadingCount("-0D-i", IsLowerSlugChar) == 2;
    }
    assert t[..3] == "--0";
  }

  /** With the article ids' class the whole id `--0D-i` is captured. */
  lemma TestUrlKept()
    ensures MatchSlugPattern(TestUrl).Some?
    ensures MatchSlugPattern(TestUrl).value.slug == "--0D-i"
  {
    var t := TestUrl[|ArticlePrefix|..];
    assert t == "--0D-i";
    assert LeadingCount(t, IsSlugChar) == 6 by {
      assert t[1..] == "-0D-i" && t[1..][1..] == "0D-i" && t[1..][1..][1..] == "D-i";
      assert t[1..][1..][1..][1..] == "-i" && t[1..][1..][1..][1..][1..] == "i";
    }
    assert t[..6] == "--0D-i";
  }

  /** No URL starts with both the article prefix and the knowledge prefix. */
  lemma PrefixesExclusive(u: string)
    requires ArticlePrefix <= u
    ensures !(KnowledgePrefix <= u)
  {
    assert u[27] == ArticlePrefix[27] == 'a';
    assert KnowledgePrefix[27] == 'k';
  }

  /**
   * On an article URL, the configured pattern captures the longest prefix of the id without
   * a capital letter, and fails outright when the id starts with one.
   */
  lemma AsWrittenCutsAtCapital(u: string)
    requires MatchArticle(u).Some?
    ensures var id := MatchArticle(u).value.slug;
      MatchSlugPatternAsWritten(u).Some? <==> !IsUpper(id[0])
    ensures var id := MatchArticle(u).value.slug;
      MatchSlugPatternAsWritten(u).Some? ==>
        && MatchSlugPatternAsWritten(u).value.slug <= id
        && (MatchSlugPatternAsWritten(u).value.slug == id <==> forall k :: 0 <= k < |id| ==> !IsUpper(id[k]))
  {
    var id := MatchArticle(u).value.slug;
    var t := u[|ArticlePrefix|..];
    PrefixesExclusive(u);
    var n := LeadingCount(t, IsSlugChar);
    var m := LeadingCount(t, IsLowerSlugChar);
    assert id == t[..n];
    assert m <= n;
    if MatchSlugPatternAsWritten(u).Some? {
      var cut := MatchSlugPatternAsWritten(u).value.slug;
      assert cut == t[..m];
      assert cut <= id;
      if forall k :: 0 <= k < |id| ==> !IsUpper(id[k]) {
        assert forall k :: 0 <= k < n ==> IsLowerSlugChar(t[k]) by {
          forall k | 0 <= k < n ensures IsLowerSlugChar(t[k]) {
            assert t[k] == id[k];
          }
        }
        assert m == n;
      }
      if cut == id {
        assert m == n;
        forall k | 0 <= k < |id| ensures !IsUpper(id[k]) {
          assert id[k] == t[k];
        }
      }
    }
  }

  /** The corrected pattern captures exactly the id the article pattern captures. */
  lemma SlugPatternAgreesWithArticlePattern(u: string)
    requires MatchArticle(u).Some?
    ensures MatchSlugPattern(u) == MatchArticle(u)
  {
  }

  /** A match of the pattern on `u` is also the match on its own text. */
  lemma MatchOnOwnText(u: string, inClass: char -> bool)
    requires MatchConfigured(u, inClass).Some?
    ensures MatchConfigured(MatchConfigured(u, inClass).value.full, inClass) == MatchConfigured(u, inClass)
  {
    var m := MatchConfigured(u, inClass).value;
    if MatchPrefixRun(u, ArticlePrefix, inClass).Some? {
      MatchOnPrefix(u, m.full, ArticlePrefix, inClass);
    } else {
      MatchOnPrefix(u, m.full, KnowledgePrefix, inClass);
      assert m.full[27] == 'k';
      assert ArticlePrefix[27] == 'a';
    }
  }

  /** `[m.group(0) for m in pattern.finditer(html)]`: scanning left to right, resuming after each match. */
  function FindAll(html: string, inClass: char -> bool): (r: seq<string>)
    ensures forall k :: 0 <= k < |r| ==>
      MatchConfigured(r[k], inClass).Some? && MatchConfigured(r[k], inClass).value.full == r[k]
    decreases |html|
  {
    if html == [] then []
    else
      match MatchConfigured(html, inClass)
      case Some(m) =>
        MatchOnOwnText(html, inClass);
        [m.full] + FindAll(html[|m.full|..], inClass)
      case None => FindAll(html[1..], inClass)
  }

  // ---------------------------------------------------------------- extract_slugs

  /** The elements of `ms` that are neither in `seen` nor earlier in `ms`, in order. */
  function Unseen(ms: seq<string>, seen: set<string>): (r: seq<string>)
    ensures Db.Distinct(r)
    ensures forall x :: x in r <==> x in ms && x !in seen
  {
    if ms == [] then []
    else
      var init := ms[..|ms| - 1];
      var last := ms[|ms| - 1];
      var r := Unseen(init, seen);
      if last in seen || last in init then r
      else
        assert (r + [last])[..|r|] == r;
        r + [last]
  }

  /** One more match is kept exactly when it is new. */
  lemma UnseenStep(ms: seq<string>, i: nat, seen: set<string>)
    requires i < |ms|
    ensures Elems(ms[..i + 1]) == Elems(ms[..i]) + {ms[i]}
    ensures Unseen(ms[..i + 1], seen) ==
      Unseen(ms[..i], seen) + (if ms[i] in seen + Elems(ms[..i]) then [] else [ms[i]])
  {
    assert ms[..i + 1] == ms[..i] + [ms[i]];
    assert ms[..i + 1][..i] == ms[..i];
  }

  /** Scanning two texts one after the other: the second sees what the first added. */
  lemma {:induction false} UnseenAppend(a: seq<string>, b: seq<string>, seen: set<string>)
    ensures Unseen(a + b, seen) == Unseen(a, seen) + Unseen(b, seen + Elems(a))
    decreases |b|
  {
    if b == [] {
      assert a + b == a;
    } else {
      var binit := b[..|b| - 1];
      var last := b[|b| - 1];
      UnseenAppend(a, binit, seen);
      assert (a + b)[..|a + b| - 1] == a + binit;
      assert (a + b)[|a + b| - 1] == last;
      assert last in a + binit <==> last in a || last in binit;
      assert last in Elems(a) <==> last in a;
    }
  }

  // ---------------------------------------------------------------- extract_links

  predicate IsQuote(c: char) { c == '"' || c == '\'' }

  predicate NotQuote(c: char) { !IsQuote(c) }

  /**
   * `href=["\']([^"\']+)["\']` matched at the start of `s`: the captured value and the
   * length of the whole match.
   */
  function HrefAt(s: string): (r: Option<(string, nat)>)
    ensures r.Some? ==>
      && r.value.1 == |r.value.0| + 7 <= |s| && r.value.0 != []
      && "href=" <= s && IsQuote(s[5]) && s[6..6 + |r.value.0|] == r.value.0 && IsQuote(s[6 + |r.value.0|])
      && forall k :: 0 <= k < |r.value.0| ==> !IsQuote(r.value.0[k])
  {
    if "href=" <= s && |s| > 5 && IsQuote(s[5]) then
      var n := LeadingCount(s[6..], NotQuote);
      if 0 < n && 6 + n < |s| then
        assert s[6..][..n] == s[6..6 + n];
        Some((s[6..6 + n], 7 + n))
      else
        None
    else
      None
  }

  /** The captured values of `href_pattern.finditer(html)`, in document order. */
  function Hrefs(html: string): (r: seq<string>)
    ensures forall k :: 0 <= k < |r| ==> r[k] != [] && forall j :: 0 <= j < |r[k]| ==> !IsQuote(r[k][j])
    decreases |html|
  {
    if html == [] then []
    else
      match HrefAt(html)
      case Some((h, len)) => [h] + Hrefs(html[len..])
      case None => Hrefs(html[1..])
  }

  /** The directory of a URL path: everything up to its last `/`, or `/` for an empty path. */
  function Directory(path: string): (d: string)
    ensures d != [] && d[|d| - 1] == '/'
  {
    var i := LastIndexOf(path, '/');
    if i < 0 then "/" else path[..i + 1]
  }

  /** No piece of `parts` holds `c`. */
  predicate FreeOf(parts: seq<string>, c: char) {
    forall k :: 0 <= k < |parts| ==> c !in parts[k]
  }

  /** Every piece of `parts` strictly between the first and the last is non-empty. */
  predicate InnerNonEmpty(parts: seq<string>) {
    forall k :: 0 < k < |parts| - 1 ==> parts[k] != []
  }

  /** `s` holds `c` at `i` and again right after it. */
  predicate DoubleAt(s: string, i: int, c: char) {
    0 <= i && i + 1 < |s| && s[i] == c && s[i + 1] == c
  }

  /** No two `c` stand next to each other in `s`. */
  predicate NoDouble(s: string, c: char) {
    forall i :: 0 <= i < |s| ==> !DoubleAt(s, i, c)
  }

  /** `s.split(c)`: the pieces between the occurrences of `c`; there is always at least one. */
  function SplitOn(s: string, c: char): (parts: seq<string>)
    ensures |parts| >= 1
    decreases |s|
  {
    var d := LastIndexOf(s, c);
    if d < 0 then [s] else SplitOn(s[..d], c) + [s[d + 1..]]
  }

  /** No piece of `s.split(c)` holds `c`. */
  lemma {:induction false} SplitOnFreeOf(s: string, c: char)
    ensures FreeOf(SplitOn(s, c), c)
    decreases |s|
  {
    var d := LastIndexOf(s, c);
    if d >= 0 {
      SplitOnFreeOf(s[..d], c);
      var y := s[d + 1..];
      assert c !in y by {
        forall k | 0 <= k < |y| ensures y[k] != c {
          assert y[k] == s[d + 1 + k];
        }
      }
      FreeOfConcat(SplitOn(s[..d], c), [y], c);
    }
  }

  /** `c.join(parts)`. */
  function JoinOn(parts: seq<string>, c: char): string
    decreases |parts|
  {
    if parts == [] then "" else if |parts| == 1 then parts[0]
    else JoinOn(parts[..|parts| - 1], c) + [c] + parts[|parts| - 1]
  }

  /** `filter(None, parts)`: the non-empty strings of `parts`, in order. */
  function NonEmpty(parts: seq<string>): (r: seq<string>)
    ensures forall k :: 0 <= k < |r| ==> r[k] != []
    ensures |r| <= |parts|
  {
    if parts == [] then [] else (if parts[0] != [] then [parts[0]] else []) + NonEmpty(parts[1..])
  }

  lemma {:induction false} NonEmptyFree(parts: seq<string>, c: char)
    requires FreeOf(parts, c)
    ensures FreeOf(NonEmpty(parts), c)
  {
    if parts != [] {
      assert FreeOf(parts[1..], c) by {
        forall k | 0 <= k < |parts| - 1 ensures c !in parts[1..][k] {
          assert parts[1..][k] == parts[k + 1];
        }
      }
      NonEmptyFree(parts[1..], c);
    }
  }

  lemma FreeOfConcat(a: seq<string>, b: seq<string>, c: char)
    requires FreeOf(a, c) && FreeOf(b, c)
    ensures FreeOf(a + b, c)
  {
    forall k | 0 <= k < |a + b| ensures c !in (a + b)[k] {
      if k < |a| {
        assert (a + b)[k] == a[k];
      } else {
        assert (a + b)[k] == b[k - |a|];
      }
    }
  }

  /**
   * The segments `urljoin` joins for a relative path reference `p` against the base path
   * `bpath`: the base's segments without its last non-empty one, then those of `p`, merged.
   */
  function MergedSegments(bpath: string, p: string): (kept: seq<string>)
    ensures |kept| >= 1 && FreeOf(kept, '/') && InnerNonEmpty(kept)
  {
    SplitOnFreeOf(p, '/');
    BaseSegmentsFree(bpath);
    FreeOfConcat(BaseSegments(bpath), SplitOn(p, '/'), '/');
    MergeSegments(BaseSegments(bpath) + SplitOn(p, '/'))
  }

  /** `segments[1:-1] = filter(None, segments[1:-1])`: the empty segments strictly between the first and the last dropped. */
  function MergeSegments(segs: seq<string>): (kept: seq<string>)
    ensures |segs| >= 1 ==> |kept| >= 1
    ensures FreeOf(segs, '/') ==> FreeOf(kept, '/')
    ensures InnerNonEmpty(kept)
  {
    if |segs| >= 2 then
      var inner := segs[1..|segs| - 1];
      var mid := NonEmpty(inner);
      var kept := [segs[0]] + mid + [segs[|segs| - 1]];
      assert InnerNonEmpty(kept) by {
        forall k | 0 < k < |kept| - 1 ensures kept[k] != [] {
          assert kept[k] == mid[k - 1];
        }
      }
      assert FreeOf(segs, '/') ==> FreeOf(kept, '/') by {
        if FreeOf(segs, '/') {
          assert FreeOf(inner, '/') by {
            forall k | 0 <= k < |inner| ensures '/' !in inner[k] {
              assert inner[k] == segs[k + 1];
            }
          }
          NonEmptyFree(inner, '/');
          FreeOfConcat([segs[0]], mid, '/');
          FreeOfConcat([segs[0]] + mid, [segs[|segs| - 1]], '/');
        }
      }
      kept
    else segs
  }

  /**
   * `bpath.split('/')` without its last segment when that is not empty. The last segment is
   * what follows the last `/` (all of `bpath` when it has none), so this is the segments
   * before the last `/`, then an empty one when `bpath` ends with `/` or is empty.
   */
  function BaseSegments(bpath: string): seq<string> {
    var d := LastIndexOf(bpath, '/');
    if d < 0 then (if bpath == [] then [""] else [])
    else SplitOn(bpath[..d], '/') + (if d == |bpath| - 1 then [""] else [])
  }

  lemma BaseSegmentsFree(bpath: string)
    ensures FreeOf(BaseSegments(bpath), '/')
  {
    var d := LastIndexOf(bpath, '/');
    if d >= 0 {
      SplitOnFreeOf(bpath[..d], '/');
      FreeOfConcat(SplitOn(bpath[..d], '/'), if d == |bpath| - 1 then [""] else [], '/');
    }
  }

  /**
   * The path `urljoin` gives a relative path reference: the merged segments joined by `/`,
   * or `/` when that is empty (dot segments are not resolved). It never holds `//`.
   */
  function MergePath(bpath: string, p: string): (r: string)
    ensures r != [] && NoDouble(r, '/')
  {
    var kept := MergedSegments(bpath, p);
    JoinNoDouble(kept, '/');
    var joined := JoinOn(kept, '/');
    if joined == "" then "/" else joined
  }

  lemma {:induction false} JoinNoDouble(parts: seq<string>, c: char)
    requires FreeOf(parts, c) && InnerNonEmpty(parts)
    ensures NoDouble(JoinOn(parts, c), c)
    decreases |parts|
  {
    if |parts| >= 2 {
      var init := parts[..|parts| - 1];
      var last := parts[|parts| - 1];
      assert FreeOf(init, c) && InnerNonEmpty(init) by {
        assert forall k :: 0 <= k < |init| ==> init[k] == parts[k];
      }
      JoinNoDouble(init, c);
      var ji := JoinOn(init, c);
      var j := ji + [c] + last;
      assert c !in last;
      assert ji != [] ==> ji[|ji| - 1] != c by {
        if |init| >= 2 {
          var li := init[|init| - 1];
          assert li == parts[|parts| - 2] && li != [] && c !in li;
          assert ji == JoinOn(init[..|init| - 1], c) + [c] + li;
          assert ji[|ji| - 1] == li[|li| - 1];
        } else {
          assert ji == parts[0] && c !in parts[0];
        }
      }
      forall i | 0 <= i < |j| ensures !DoubleAt(j, i, c) {
        if i + 1 < |ji| {
          assert j[i] == ji[i] && j[i + 1] == ji[i + 1];
          assert !DoubleAt(ji, i, c);
        } else if i + 1 == |ji| {
          assert j[i] == ji[i];
        } else if i + 1 < |j| {
          assert j[i + 1] == last[i - |ji|];
        }
      }
    }
  }

  lemma {:induction false} JoinSplit(s: string, c: char)
    ensures JoinOn(SplitOn(s, c), c) == s
    decreases |s|
  {
    var d := LastIndexOf(s, c);
    if d >= 0 {
      JoinSplit(s[..d], c);
      JoinSnoc(SplitOn(s[..d], c), s[d + 1..], c);
      assert s == s[..d] + [c] + s[d + 1..];
    }
  }


  lemma JoinSnoc(parts: seq<string>, p: string, c: char)
    requires |parts| >= 1
    ensures JoinOn(parts + [p], c) == JoinOn(parts, c) + [c] + p
  {
    assert (parts + [p])[..|parts|] == parts;
  }

  /**
   * The pieces of a string without `cc` that does not end with `c` are non-empty past the
   * first.
   */
  lemma {:induction false} SplitOnNonEmpty(x: string, c: char)
    requires NoDouble(x, c) && (x != [] ==> x[|x| - 1] != c)
    ensures forall k :: 0 < k < |SplitOn(x, c)| ==> SplitOn(x, c)[k] != []
    decreases |x|
  {
    var d := LastIndexOf(x, c);
    if d >= 0 {
      var x' := x[..d];
      assert d < |x| - 1;
      assert NoDouble(x', c) by {
        forall i | 0 <= i < |x'| ensures !DoubleAt(x', i, c) {
          assert !DoubleAt(x, i, c);
        }
      }
      if x' != [] {
        assert !DoubleAt(x, d - 1, c);
      }
      SplitOnNonEmpty(x', c);
    }
  }


  lemma {:induction false} NonEmptyKeeps(parts: seq<string>)
    requires forall k :: 0 <= k < |parts| ==> parts[k] != []
    ensures NonEmpty(parts) == parts
  {
    if parts != [] {
      NonEmptyKeeps(parts[1..]);
    }
  }

  lemma {:induction false} NonEmptyAppend(a: seq<string>, b: seq<string>)
    ensures NonEmpty(a + b) == NonEmpty(a) + NonEmpty(b)
  {
    if a == [] {
      assert a + b == b;
    } else {
      assert (a + b)[1..] == a[1..] + b;
      NonEmptyAppend(a[1..], b);
    }
  }

  /** The pieces of `x + [c] + y`, when `y` has no `c`: those of `x`, then `y`. */
  lemma SplitOnLast(x: string, y: string, c: char)
    requires c !in y
    ensures SplitOn(x + [c] + y, c) == SplitOn(x, c) + [y]
  {
    var s := x + [c] + y;
    assert s[|x|] == c;
    assert forall i :: |x| < i < |s| ==> s[i] == y[i - |x| - 1];
    assert LastIndexOf(s, c) == |x|;
    assert s[..|x|] == x && s[|x| + 1..] == y;
  }


  /** The part before the last `/` of a path that starts with `/` and holds no `//` splits into non-empty pieces past the first. */
  lemma DirectoryPiecesNonEmpty(bpath: string, d: int)
    requires bpath != [] && bpath[0] == '/' && NoDouble(bpath, '/')
    requires d == LastIndexOf(bpath, '/')
    ensures 0 <= d
    ensures forall k :: 0 < k < |SplitOn(bpath[..d], '/')| ==> SplitOn(bpath[..d], '/')[k] != []
  {
    var x := bpath[..d];
    assert NoDouble(x, '/') by {
      forall i | 0 <= i < |x| ensures !DoubleAt(x, i, '/') {
        assert !DoubleAt(bpath, i, '/');
      }
    }
    if x != [] {
      assert !DoubleAt(bpath, d - 1, '/');
    }
    SplitOnNonEmpty(x, '/');
  }

  /**
   * The base segments of a path that starts with `/` and holds no `//`: the segments of the
   * path before its last `/` (non-empty past the first), and an empty one when the path ends
   * with `/`.
   */
  lemma BaseSegmentsPlain(bpath: string, d: int)
    requires bpath != [] && bpath[0] == '/' && NoDouble(bpath, '/')
    requires d == LastIndexOf(bpath, '/')
    ensures 0 <= d
    ensures Directory(bpath) == bpath[..d] + ['/']
    ensures JoinOn(SplitOn(bpath[..d], '/'), '/') == bpath[..d]
    ensures forall k :: 0 < k < |SplitOn(bpath[..d], '/')| ==> SplitOn(bpath[..d], '/')[k] != []
    ensures BaseSegments(bpath) == SplitOn(bpath[..d], '/') + (if d == |bpath| - 1 then [""] else [])
  {
    DirectoryPiecesNonEmpty(bpath, d);
    JoinSplit(bpath[..d], '/');
    DirectoryAt(bpath, d);
  }

  /** The directory of a path whose last `/` is at `d`: the path before it, then `/`. */
  lemma DirectoryAt(path: string, d: int)
    requires d == LastIndexOf(path, '/') && 0 <= d
    ensures Directory(path) == path[..d] + ['/']
  {
    assert path[..d + 1] == path[..d] + [path[d]];
  }

  /**
   * Merging the segments of a base, `sx` (non-empty past the first) plus possibly one empty
   * one, with those of a reference, `rs`: the reference's empty segments before its last are
   * dropped.
   */
  lemma MergedOnto(sx: seq<string>, extra: seq<string>, rs: seq<string>)
    requires |sx| >= 1 && forall k :: 0 < k < |sx| ==> sx[k] != []
    requires extra == [] || extra == [""]
    requires |rs| >= 1
    ensures MergeSegments(sx + extra + rs) == sx + NonEmpty(rs[..|rs| - 1]) + [rs[|rs| - 1]]
  {
    var segs := sx + extra + rs;
    var inner := segs[1..|segs| - 1];
    var tail := NonEmpty(rs[..|rs| - 1]);
    assert NonEmpty(inner) == sx[1..] + tail by {
      assert inner == (sx[1..] + extra) + rs[..|rs| - 1];
      NonEmptyAppend(sx[1..] + extra, rs[..|rs| - 1]);
      NonEmptyBase(sx, extra);
    }
    assert MergeSegments(segs) == [sx[0]] + (sx[1..] + tail) + [rs[|rs| - 1]] by {
      assert segs[0] == sx[0] && segs[|segs| - 1] == rs[|rs| - 1];
    }
    assert [sx[0]] + (sx[1..] + tail) == sx + tail by {
      assert [sx[0]] + sx[1..] == sx;
    }
  }

  /** The base's own segments past the first survive the filter; a trailing empty one does not. */
  lemma NonEmptyBase(sx: seq<string>, extra: seq<string>)
    requires |sx| >= 1 && forall k :: 0 < k < |sx| ==> sx[k] != []
    requires extra == [] || extra == [""]
    ensures NonEmpty(sx[1..] + extra) == sx[1..]
  {
    NonEmptyAppend(sx[1..], extra);
    assert forall k :: 0 <= k < |sx[1..]| ==> sx[1..][k] == sx[k + 1];
    NonEmptyKeeps(sx[1..]);
    assert NonEmpty(extra) == [];
  }

  /**
   * On a base path starting with `/` and free of `//`, and a one-segment reference, the
   * merge appends the reference to the base's directory.
   */
  lemma MergePathPlain(bpath: string, p: string)
    requires bpath != [] ==> bpath[0] == '/'
    requires NoDouble(bpath, '/')
    requires p != [] && '/' !in p
    ensures MergePath(bpath, p) == Directory(bpath) + p
  {
    assert SplitOn(p, '/') == [p] by {
      SplitOnFree(p, '/');
    }
    if bpath == [] {
      assert BaseSegments(bpath) == [""] by {
        SplitOnFree(bpath, '/');
      }
      assert MergedSegments(bpath, p) == ["", p] by {
        assert BaseSegments(bpath) + SplitOn(p, '/') == ["", p];
      }
      assert JoinOn(["", p], '/') == "/" + p;
    } else {
      var d := LastIndexOf(bpath, '/');
      BaseSegmentsPlain(bpath, d);
      var sx := SplitOn(bpath[..d], '/');
      var extra: seq<string> := if d == |bpath| - 1 then [""] else [];
      assert MergedSegments(bpath, p) == sx + [p] by {
        assert BaseSegments(bpath) + SplitOn(p, '/') == sx + extra + [p];
        MergedOnto(sx, extra, [p]);
        assert [p][..0] == [];
      }
      assert JoinOn(sx + [p], '/') == Directory(bpath) + p by {
        JoinSnoc(sx, p, '/');
      }
    }
  }

  /**
   * Empty segments inside a relative reference are dropped: `a//c` against a plain base
   * path gives the base's directory, then `a/c` (as `a//b` against `/de/library/x` gives
   * `/de/library/a/b`).
   */
  lemma MergeDropsEmptySegment(bpath: string, a: string, c: string)
    requires bpath != [] && bpath[0] == '/' && NoDouble(bpath, '/')
    requires a != [] && '/' !in a && '/' !in c
    ensures MergePath(bpath, a + "//" + c) == Directory(bpath) + a + "/" + c
  {
    var p := a + "//" + c;
    SplitDoubleSlash(a, c);
    var d := LastIndexOf(bpath, '/');
    BaseSegmentsPlain(bpath, d);
    var sx := SplitOn(bpath[..d], '/');
    var extra: seq<string> := if d == |bpath| - 1 then [""] else [];
    assert MergedSegments(bpath, p) == sx + [a] + [c] by {
      assert BaseSegments(bpath) + SplitOn(p, '/') == sx + extra + [a, "", c];
      MergedOnto(sx, extra, [a, "", c]);
      assert [a, "", c][..2] == [a, ""];
      assert NonEmpty([a, ""]) == [a];
    }
    assert JoinOn(sx + [a] + [c], '/') == Directory(bpath) + a + "/" + c by {
      JoinSnoc(sx, a, '/');
      JoinSnoc(sx + [a], c, '/');
    }
  }

  /** `(a + "//" + c).split('/')` for `a` and `c` without `/`. */
  lemma SplitDoubleSlash(a: string, c: string)
    requires '/' !in a && '/' !in c
    ensures SplitOn(a + "//" + c, '/') == [a, "", c]
  {
    assert SplitOn(a + "/", '/') == [a, ""] by {
      SplitOnFree(a, '/');
      SplitOnLast(a, "", '/');
      assert a + "/" == a + ['/'] + "";
    }
    SplitOnLast(a + "/", c, '/');
    assert a + "//" + c == (a + "/") + ['/'] + c;
  }

  /**
   * `urljoin(base, href)` against a base whose scheme `urljoin` resolves (http, https): an
   * empty reference gives the base; a reference with a scheme other than the base's stands
   * alone; one with a netloc takes the base's scheme; any other keeps the base's scheme and
   * netloc and resolves its path with `JoinPath`.
   */
  function UrlJoin(base: string, href: string): string {
    var b := Parse(base);
    var (scheme, rest) := SplitScheme(href);
    var (netloc, rest2) := SplitNetloc(rest);
    if href == [] then base
    else if scheme != [] && scheme != b.scheme then href
    else if netloc != [] then b.scheme + ":" + rest
    else b.scheme + "://" + b.netloc + JoinPath(b, rest2)
  }

  /**
   * The path, query and fragment `urljoin` gives a reference `ref` without scheme or netloc
   * against the base `b`: an empty path keeps the base's path and params and, when `ref` has
   * no query, the base's query; an absolute path stands as written; a relative path is merged
   * with `MergePath`. The reference's query and fragment are carried over as written.
   */
  function JoinPath(b: UrlParts, ref: string): (r: string)
    ensures ref != [] && ref[0] == '/' ==> r == ref
  {
    var pt := FindIn(ref, {'?', '#'});
    var p := ref[..pt];
    var tail := ref[pt..];
    assert ref == p + tail;
    if p == [] then b.path + (if b.params != [] then ";" + b.params else "") + EmptyPathTail(b.query, tail)
    else if p[0] == '/' then ref
    else MergePath(b.path, p) + tail
  }

  /**
   * For a reference with an empty path: its own query, or else the base's, then its own
   * fragment (`tail` is empty or starts with `?` or `#`).
   */
  function EmptyPathTail(bquery: string, tail: string): string {
    var (q, frag) := SplitAt(tail, '#');
    (if |q| > 1 then q else if bquery != [] then "?" + bquery else "") + (if frag != [] then "#" + frag else "")
  }

  lemma SplitOnFree(s: string, c: char)
    requires c !in s
    ensures SplitOn(s, c) == [s]
  {
    assert LastIndexOf(s, c) < 0;
  }

  /** A string with none of the characters `cs` has no position of one of them. */
  lemma {:induction false} FindInAbsent(s: string, cs: set<char>)
    requires forall k :: 0 <= k < |s| ==> s[k] !in cs
    ensures FindIn(s, cs) == |s|
  {
    if s != [] {
      FindInAbsent(s[1..], cs);
    }
  }

  /** `urlsplit` lower-cases the scheme it finds. */
  lemma CapitalSchemeSplit(rest: string)
    ensures SplitScheme("HTTPS:" + rest) == ("https", rest)
  {
    var href := "HTTPS:" + rest;
    assert FindIn(href, {':'}) == 5 by {
      assert href[5] == ':';
      assert forall k :: 0 <= k < 5 ==> href[k] != ':';
    }
    assert href[..5] == "HTTPS" && href[6..] == rest;
    assert Lower("HTTPS") == "https";
  }

  /**
   * A reference with the base's scheme (however it is capitalised, see `CapitalSchemeSplit`)
   * and no netloc is resolved against the base, not taken as an absolute URL.
   */
  lemma SameSchemeResolved(base: string, href: string)
    requires SplitScheme(href).0 == Parse(base).scheme != []
    requires var rest := SplitScheme(href).1;
      rest != [] && forall k :: 0 <= k < |rest| ==> rest[k] !in {'/', '?', '#'}
    ensures UrlJoin(base, href) ==
      Parse(base).scheme + "://" + Parse(base).netloc + MergePath(Parse(base).path, SplitScheme(href).1)
  {
    var rest := SplitScheme(href).1;
    NoNetloc(rest);
    UrlJoinSameOrigin(base, href);
    JoinPathOneSegment(Parse(base), rest);
  }

  /** A reference that does not start with `/` has no netloc. */
  lemma NoNetloc(ref: string)
    requires ref != [] && ref[0] != '/'
    ensures SplitNetloc(ref) == ("", ref)
  {
  }

  /** A reference made of one path segment, without query or fragment, is merged with the base's path. */
  lemma JoinPathOneSegment(b: UrlParts, ref: string)
    requires ref != [] && forall k :: 0 <= k < |ref| ==> ref[k] !in {'/', '?', '#'}
    ensures JoinPath(b, ref) == MergePath(b.path, ref)
  {
    FindInAbsent(ref, {'?', '#'});
    JoinPathRelative(b, ref);
    assert ref[..|ref|] == ref && ref[|ref|..] == [];
  }

  /** A reference without netloc, and with no scheme or the base's, keeps the base's scheme and netloc. */
  lemma UrlJoinSameOrigin(base: string, href: string)
    requires href != []
    requires SplitScheme(href).0 == [] || SplitScheme(href).0 == Parse(base).scheme
    requires SplitNetloc(SplitScheme(href).1).0 == []
    ensures UrlJoin(base, href) ==
      Parse(base).scheme + "://" + Parse(base).netloc + JoinPath(Parse(base), SplitNetloc(SplitScheme(href).1).1)
  {
  }

  /** A relative path reference is merged with the base's path; its query and fragment follow. */
  lemma JoinPathRelative(b: UrlParts, ref: string)
    requires ref != [] && ref[0] !in {'/', '?', '#'}
    ensures JoinPath(b, ref) == MergePath(b.path, ref[..FindIn(ref, {'?', '#'})]) + ref[FindIn(ref, {'?', '#'})..]
  {
    var pt := FindIn(ref, {'?', '#'});
    assert pt > 0;
    assert ref[..pt][0] == ref[0];
  }

  /** The link an `href` of the page at `base` contributes, normalised, or `None` when it is skipped. */
  function LinkOf(base: string, href: string): (r: Option<string>)
    ensures r.Some? ==> '#' !in r.value
  {
    if "#" <= href || "javascript:" <= href || "mailto:" <= href || "tel:" <= href then None
    else
      var full :=
        if "/" <= href then Some(UrlJoin(base, href))
        else if "http" <= href then (if Contains(href, Origin) then Some(href) else None)
        else Some(UrlJoin(base, href));
      if full.Some? then
        NormalizeHasNoFragment(full.value);
        Some(Normalize(full.value))
      else
        None
  }

  /** Anchors, script, mail and phone references, and absolute links off the site are dropped; site links are only normalised. */
  lemma LinkOfSkips(base: string, href: string)
    ensures "#" <= href || "javascript:" <= href || "mailto:" <= href || "tel:" <= href ==> LinkOf(base, href).None?
    ensures "http" <= href && !Contains(href, Origin) ==> LinkOf(base, href).None?
    ensures "http" <= href && Contains(href, Origin) ==> LinkOf(base, href) == Some(Normalize(href))
    ensures "/" <= href && !("//" <= href) ==>
      LinkOf(base, href) == Some(Normalize(Parse(base).scheme + "://" + Parse(base).netloc + href))
  {
    if "#" <= href || "javascript:" <= href || "mailto:" <= href || "tel:" <= href {
      assert href[0] in {'#', 'j', 'm', 't'};
    } else if "http" <= href {
      assert href[0] == 'h';
      assert !("/" <= href);
    } else if "/" <= href && !("//" <= href) {
      UrlJoinAbsolute(base, href);
      assert LinkOf(base, href) == Some(Normalize(UrlJoin(base, href)));
    }
  }

  /** An absolute-path reference replaces the base's path, keeping its scheme and netloc. */
  lemma UrlJoinAbsolute(base: string, href: string)
    requires "/" <= href && !("//" <= href)
    ensures UrlJoin(base, href) == Parse(base).scheme + "://" + Parse(base).netloc + href
  {
    assert href[0] == '/';
    assert SplitScheme(href).0 == [] by {
      assert FindIn(href, {':'}) == 0 || !IsAsciiAlpha(href[0]);
    }
    assert SplitNetloc(href) == ("", href);
  }

  /** The links the `href`s of the page at `base` contribute, in document order, before duplicates are dropped. */
  function LinksOf(base: string, hrefs: seq<string>): (r: seq<string>)
    ensures |r| <= |hrefs|
    ensures forall k :: 0 <= k < |r| ==> '#' !in r[k]
  {
    if hrefs == [] then []
    else
      var last := LinkOf(base, hrefs[|hrefs| - 1]);
      LinksOf(base, hrefs[..|hrefs| - 1]) + (if last.Some? then [last.value] else [])
  }

  /** A link is contributed exactly when some `href` yields it. */
  lemma {:induction false} LinksOfMembers(base: string, hrefs: seq<string>)
    ensures forall x :: x in LinksOf(base, hrefs) <==> exists h :: h in hrefs && LinkOf(base, h) == Some(x)
  {
    if hrefs != [] {
      var init := hrefs[..|hrefs| - 1];
      LinksOfMembers(base, init);
      forall x ensures x in LinksOf(base, hrefs) <==> exists h :: h in hrefs && LinkOf(base, h) == Some(x) {
        if h :| h in hrefs && LinkOf(base, h) == Some(x) {
          if h != hrefs[|hrefs| - 1] {
            assert h in init;
          }
        }
        if x in LinksOf(base, init) {
          var h :| h in init && LinkOf(base, h) == Some(x);
          assert h in hrefs;
        }
      }
    }
  }

  lemma LinksOfStep(base: string, hrefs: seq<string>, i: nat, link: Option<string>)
    requires i < |hrefs| && link == LinkOf(base, hrefs[i])
    ensures LinksOf(base, hrefs[..i + 1]) == LinksOf(base, hrefs[..i]) + (if link.Some? then [link.value] else [])
  {
    assert hrefs[..i + 1][..i] == hrefs[..i];
  }

  /** The links of the page at `base` whose text is `html`, each once (`list(set(links))`, kept in first-occurrence order). */
  function LinkList(html: string, base: string): (r: seq<string>)
    ensures Db.Distinct(r)
    ensures forall x :: x in r <==> exists h :: h in Hrefs(html) && LinkOf(base, h) == Some(x)
  {
    LinksOfMembers(base, Hrefs(html));
    Unseen(LinksOf(base, Hrefs(html)), {})
  }

  /** Every link any page of the site holds. */
  function AllLinks(pages: map<string, string>): set<string> {
    set u, x | u in pages && x in LinkList(pages[u], u) :: x
  }

  /** The URLs the crawl can ever reach: the start URLs and every link of a page of the site. */
  function Reachable(startUrls: seq<string>, pages: map<string, string>): set<string> {
    Elems(startUrls) + AllLinks(pages)
  }

  /** The article URLs found in the fetched pages, in fetch order. */
  function MatchesOf(fetched: seq<string>, pages: map<string, string>): seq<string> {
    if fetched == [] then []
    else
      var last := fetched[|fetched| - 1];
      MatchesOf(fetched[..|fetched| - 1], pages) + (if last in pages then FindAll(pages[last], IsLowerSlugChar) else [])
  }

  lemma MatchesOfStep(fetched: seq<string>, pages: map<string, string>, url: string)
    ensures MatchesOf(fetched + [url], pages) ==
      MatchesOf(fetched, pages) + (if url in pages then FindAll(pages[url], IsLowerSlugChar) else [])
  {
    assert (fetched + [url])[..|fetched|] == fetched;
  }

  /** One fewer URL left to visit. */
  lemma VisitShrinks(reach: set<string>, visited: set<string>, url: string)
    requires url in reach && url !in visited
    ensures |reach - (visited + {url})| < |reach - visited|
  {
    var rest := reach - (visited + {url});
    assert reach - visited == rest + {url};
  }

  /** The body of the `extract_links` loop for one `href`: skip it, or resolve and normalise it. */
  method ResolveLink(base: string, href: string) returns (link: Option<string>)
    ensures link == LinkOf(base, href)
  {
    if "#" <= href || "javascript:" <= href || "mailto:" <= href || "tel:" <= href {
      return None;
    }
    var fullUrl: string;
    if "/" <= href {
      fullUrl := UrlJoin(base, href);
    } else if "http" <= href {
      if Contains(href, Origin) {
        fullUrl := href;
      } else {
        return None;
      }
    } else {
      fullUrl := UrlJoin(base, href);
    }
    link := Some(Normalize(fullUrl));
  }

  /** Visiting a URL not visited before keeps the visiting order free of repetitions. */
  lemma Visited(order: seq<string>, url: string)
    requires Db.Distinct(order) && url !in Elems(order)
    ensures Db.Distinct(order + [url]) && Elems(order + [url]) == Elems(order) + {url}
  {
    assert (order + [url])[..|order|] == order;
  }

  lemma ElemsAppend(a: seq<string>, b: seq<string>)
    ensures Elems(a + b) == Elems(a) + Elems(b)
  {
  }

  /** With the queue empty, every start URL and every link of a visited page was visited. */
  lemma CrawlDone(startUrls: seq<string>, pages: map<string, string>, visitedOrder: seq<string>, visited: set<string>)
    requires visited == Elems(visitedOrder)
    requires Covered(Elems(startUrls), visited, []) && Closed(visited, [], pages)
    ensures forall u :: u in startUrls ==> u in visitedOrder
    ensures forall u, x :: u in visitedOrder && u in pages && x in LinkList(pages[u], u) ==> x in visitedOrder
  {
    forall u | u in startUrls
      ensures u in visitedOrder
    {
      assert u in Elems(startUrls);
      assert u in Elems(visitedOrder);
    }
    forall u, x | u in visitedOrder && u in pages && x in LinkList(pages[u], u)
      ensures x in visitedOrder
    {
      assert u in Elems(visitedOrder);
      assert x in Elems(visitedOrder);
    }
  }

  /** The article URLs of one more page extend both what was yielded and what was discovered. */
  lemma YieldStep(prior: seq<string>, found: seq<string>, seen: set<string>, slugs: seq<string>)
    requires slugs == Unseen(found, seen + Elems(prior))
    ensures Unseen(prior, seen) + slugs == Unseen(prior + found, seen)
    ensures seen + Elems(prior) + Elems(found) == seen + Elems(prior + found)
  {
    UnseenAppend(prior, found, seen);
    ElemsAppend(prior, found);
  }

  /** The links of a page of the site can be reached. */
  lemma LinksReachable(startUrls: seq<string>, pages: map<string, string>, u: string)
    requires u in pages
    ensures forall x :: x in LinkList(pages[u], u) ==> x in Reachable(startUrls, pages)
  {
  }

  /** Every URL of `xs` is visited or waiting in the queue. */
  predicate Covered(xs: set<string>, visited: set<string>, queue: seq<string>) {
    forall x :: x in xs ==> x in visited || x in queue
  }

  /** Every link of a visited page of the site is visited or waiting in the queue. */
  predicate Closed(visited: set<string>, queue: seq<string>, pages: map<string, string>) {
    forall u, x :: u in visited && u in pages && x in LinkList(pages[u], u) ==> x in visited || x in queue
  }

  /**
   * One turn of the crawl keeps both properties when it forgets nothing that was visited or
   * queued, and every page it newly visits has its links visited or queued.
   */
  lemma CrawlStep(
    xs: set<string>, pages: map<string, string>,
    visited: set<string>, queue: seq<string>, visited2: set<string>, queue2: seq<string>)
    requires Covered(xs, visited, queue) && Closed(visited, queue, pages)
    requires visited <= visited2
    requires forall x :: x in queue ==> x in visited2 || x in queue2
    requires forall u, x :: (u in visited2 && u !in visited && u in pages && x in LinkList(pages[u], u)) ==>
      x in visited2 || x in queue2
    ensures Covered(xs, visited2, queue2) && Closed(visited2, queue2, pages)
  {
  }

  /** The URLs the slug pattern matches, in order. */
  function Matching(urls: seq<string>): seq<string> {
    if urls == [] then []
    else
      var last := urls[|urls| - 1];
      Matching(urls[..|urls| - 1]) + (if MatchSlugPatternAsWritten(last).Some? then [last] else [])
  }

  lemma MatchingStep(urls: seq<string>, i: nat)
    requires i < |urls|
    ensures Matching(urls[..i + 1]) == Matching(urls[..i]) + (if MatchSlugPatternAsWritten(urls[i]).Some? then [urls[i]] else [])
  {
    assert urls[..i + 1][..i] == urls[..i];
  }

  /** Nothing is dropped from a list of URLs the pattern matches. */
  lemma {:induction false} MatchingAll(urls: seq<string>)
    requires forall k :: 0 <= k < |urls| ==> MatchSlugPatternAsWritten(urls[k]).Some?
    ensures Matching(urls) == urls
  {
    if urls != [] {
      var init := urls[..|urls| - 1];
      var last := urls[|urls| - 1];
      assert forall k :: 0 <= k < |init| ==> init[k] == urls[k];
      MatchingAll(init);
      assert MatchSlugPatternAsWritten(last).Some?;
      assert Matching(urls) == Matching(init) + [last];
      SplitLast(urls);
    }
  }

  /** The URLs the crawl yields are each matched in full by the slug pattern, so none is dropped. */
  lemma YieldedMatch(fetched: seq<string>, pages: map<string, string>, seen: set<string>)
    ensures var y := Unseen(MatchesOf(fetched, pages), seen);
      && (forall x :: x in y ==> MatchSlugPatternAsWritten(x).Some? && MatchSlugPatternAsWritten(x).value.full == x)
      && Matching(y) == y
  {
    var y := Unseen(MatchesOf(fetched, pages), seen);
    MatchesOfMatch(fetched, pages);
    assert forall k :: 0 <= k < |y| ==> y[k] in y;
    MatchingAll(y);
  }

  /**
   * The job store after storing `discovered`: rows that existed are unchanged, the slug of
   * every stored URL has a row, and every new row is a pending row for one of them.
   */
  predicate Stored(rows0: map<string, Db.UrlRow>, rows: map<string, Db.UrlRow>, discovered: seq<string>) {
    && (forall s :: s in rows0 ==> s in rows && rows[s] == rows0[s])
    && (forall x :: x in discovered ==> MatchSlugPatternAsWritten(x).Some? && MatchSlugPatternAsWritten(x).value.slug in rows)
    && (forall s :: s in rows && s !in rows0 ==>
          exists x :: (x in discovered && MatchSlugPatternAsWritten(x).Some? && MatchSlugPatternAsWritten(x).value.slug == s &&
                       rows[s] == Db.UrlRow(x, "pending", None, 0)))
  }

  /** Every slug the store gained is a non-empty run of `[a-z0-9-]`, as the configured pattern captures it. */
  lemma StoredSlugsLower(rows0: map<string, Db.UrlRow>, rows: map<string, Db.UrlRow>, discovered: seq<string>)
    requires Stored(rows0, rows, discovered)
    ensures forall s :: s in rows && s !in rows0 ==> s != [] && forall k :: 0 <= k < |s| ==> IsLowerSlugChar(s[k])
  {
    forall s | s in rows && s !in rows0
      ensures s != [] && forall k :: 0 <= k < |s| ==> IsLowerSlugChar(s[k])
    {
      var x :| x in discovered && MatchSlugPatternAsWritten(x).Some? && MatchSlugPatternAsWritten(x).value.slug == s &&
        rows[s] == Db.UrlRow(x, "pending", None, 0);
    }
  }

  /** Storing one more matched URL with `add_url` keeps the job store in that shape. */
  lemma StoredStep(
    rows0: map<string, Db.UrlRow>, rows: map<string, Db.UrlRow>, rows2: map<string, Db.UrlRow>,
    discovered: seq<string>, url: string)
    requires Stored(rows0, rows, discovered)
    requires MatchSlugPatternAsWritten(url).Some?
    requires var slug := MatchSlugPatternAsWritten(url).value.slug;
      rows2 == if slug in rows then rows else rows[slug := Db.UrlRow(url, "pending", None, 0)]
    ensures Stored(rows0, rows2, discovered + [url])
  {
    var slug := MatchSlugPatternAsWritten(url).value.slug;
    forall s | s in rows2 && s !in rows0
      ensures exists x :: (x in discovered + [url] && MatchSlugPatternAsWritten(x).Some? && MatchSlugPatternAsWritten(x).value.slug == s &&
                           rows2[s] == Db.UrlRow(x, "pending", None, 0))
    {
      if s == slug && slug !in rows {
        assert url in discovered + [url];
      } else {
        var x :| x in discovered && MatchSlugPatternAsWritten(x).Some? && MatchSlugPatternAsWritten(x).value.slug == s &&
          rows[s] == Db.UrlRow(x, "pending", None, 0);
        assert x in discovered + [url];
      }
    }
  }

  /** Every URL the crawl collects is matched, in full, by the slug pattern. */
  lemma {:induction false} MatchesOfMatch(fetched: seq<string>, pages: map<string, string>)
    ensures forall x :: x in MatchesOf(fetched, pages) ==> MatchSlugPatternAsWritten(x).Some? && MatchSlugPatternAsWritten(x).value.full == x
  {
    if fetched != [] {
      var init := fetched[..|fetched| - 1];
      var last := fetched[|fetched| - 1];
      MatchesOfMatch(init, pages);
      if last in pages {
        var f := FindAll(pages[last], IsLowerSlugChar);
        forall x | x in f
          ensures MatchSlugPatternAsWritten(x).Some? && MatchSlugPatternAsWritten(x).value.full == x
        {
          var k :| 0 <= k < |f| && f[k] == x;
        }
      }
    }
  }

  /**
   * The inner loop of `discover_from_start_urls`: each link is queued unless it was
   * already visited or is already in the queue.
   */
  method EnqueueNew(queue: seq<string>, links: seq<string>, visited: set<string>) returns (q: seq<string>)
    ensures |queue| <= |q| && q[..|queue|] == queue
    ensures forall k :: |queue| <= k < |q| ==> q[k] !in visited && q[k] !in q[..k]
    ensures forall x :: x in links ==> x in visited || x in q
    ensures forall x :: x in q ==> x in queue || x in links
  {
    q := queue;
    var j := 0;
    while j < |links|
      invariant 0 <= j <= |links|
      invariant |queue| <= |q| && q[..|queue|] == queue
      invariant forall k :: |queue| <= k < |q| ==> q[k] !in visited && q[k] !in q[..k]
      invariant forall k :: 0 <= k < j ==> links[k] in visited || links[k] in q
      invariant forall x :: x in q ==> x in queue || x in links
    {
      var link := links[j];
      if link !in visited && link !in q {
        q := q + [link];
      }
      j := j + 1;
    }
  }

  /**
   * The loop of `discover_articles` over the URLs the crawl yields: each URL the slug
   * pattern matches is stored under its slug with `add_url` and reported when that succeeds.
   */
  method StoreAll(db: Db.DatabaseManager, urls: seq<string>) returns (stored: seq<string>)
    requires db.Valid()
    modifies db`urls, db`order
    ensures db.Valid()
    ensures stored == Matching(urls)
    ensures Stored(old(db.urls), db.urls, stored)
  {
    stored := [];
    var i := 0;
    while i < |urls|
      invariant 0 <= i <= |urls|
      invariant db.Valid()
      invariant stored == Matching(urls[..i])
      invariant Stored(old(db.urls), db.urls, stored)
    {
      var url := urls[i];
      MatchingStep(urls, i);
      var m := MatchSlugPatternAsWritten(url);
      if m.Some? {
        var slug := m.value.slug;
        ghost var rows := db.urls;
        var success := db.AddUrl(slug, url);
        if success {
          StoredStep(old(db.urls), rows, db.urls, stored, url);
          stored := stored + [url];
        }
      }
      i := i + 1;
    }
    assert urls[..i] == urls;
  }

  /** `settings.base_url` followed by the three index paths `discover_articles` starts from by default. */
  const DefaultStartUrls: seq<string> := [Origin + "/de/article", Origin + "/de/knowledge", Origin + "/de/library"]

  class URLDiscoverer {
    /** Every article URL any call of `extract_slugs` has returned so far. */
    var discoveredUrls: set<string>

    constructor ()
      ensures discoveredUrls == {}
    {
      discoveredUrls := {};
    }

    /**
     * `extract_slugs`: the full matches of the slug pattern in `html` not discovered before,
     * in first-occurrence order; they are added to the discovered set.
     */
    method ExtractSlugs(html: string) returns (slugs: seq<string>)
      modifies this
      ensures slugs == Unseen(FindAll(html, IsLowerSlugChar), old(discoveredUrls))
      ensures discoveredUrls == old(discoveredUrls) + Elems(FindAll(html, IsLowerSlugChar))
      ensures forall x :: x in slugs ==> x !in old(discoveredUrls) && x in discoveredUrls
    {
      var matches := FindAll(html, IsLowerSlugChar);
      slugs := [];
      var i := 0;
      while i < |matches|
        invariant 0 <= i <= |matches|
        invariant discoveredUrls == old(discoveredUrls) + Elems(matches[..i])
        invariant slugs == Unseen(matches[..i], old(discoveredUrls))
      {
        var fullUrl := matches[i];
        UnseenStep(matches, i, old(discoveredUrls));
        if fullUrl !in discoveredUrls {
          discoveredUrls := discoveredUrls + {fullUrl};
          slugs := slugs + [fullUrl];
        }
        i := i + 1;
      }
      assert matches[..i] == matches;
    }

    /**
     * `extract_links`: the normalised links of the page at `base`, without repetition
     * (`list(set(links))`; the model keeps the first occurrence of each).
     */
    method ExtractLinks(html: string, base: string) returns (unique: seq<string>)
      ensures unique == LinkList(html, base)
    {
      var hrefs := Hrefs(html);
      var links := [];
      var i := 0;
      while i < |hrefs|
        invariant 0 <= i <= |hrefs|
        invariant links == LinksOf(base, hrefs[..i])
      {
        var link := ResolveLink(base, hrefs[i]);
        LinksOfStep(base, hrefs, i, link);
        if link.Some? {
          links := links + [link.value];
        }
        i := i + 1;
      }
      assert hrefs[..i] == hrefs;
      unique := Unseen(links, {});
    }

    /**
     * The body of the crawl loop for a page that could be fetched: its new article URLs,
     * and the queue with its links that were neither visited nor queued appended.
     */
    method CrawlPage(url: string, html: string, queue: seq<string>, visited: set<string>)
      returns (slugs: seq<string>, next: seq<string>)
      modifies this
      ensures slugs == Unseen(FindAll(html, IsLowerSlugChar), old(discoveredUrls))
      ensures discoveredUrls == old(discoveredUrls) + Elems(FindAll(html, IsLowerSlugChar))
      ensures forall x :: x in queue ==> x in next
      ensures forall x :: x in LinkList(html, url) ==> x in visited || x in next
      ensures forall x :: x in next ==> x in queue || x in LinkList(html, url)
    {
      slugs := ExtractSlugs(html);
      var links := ExtractLinks(html, url);
      next := EnqueueNew(queue, links, visited);
    }

    /**
     * `discover_from_start_urls`: a breadth-first crawl from `startUrls`. Each URL taken from
     * the queue is skipped when visited already; otherwise it is marked visited and fetched.
     * A page that cannot be fetched is passed over; for one that can, the new article URLs
     * it holds are yielded and its links not yet visited or queued join the queue.
     * `visitedOrder` lists the URLs marked visited, in order.
     */
    method DiscoverFromStartUrls(startUrls: seq<string>, pages: map<string, string>)
      returns (yielded: seq<string>, visitedOrder: seq<string>)
      modifies this
      ensures Db.Distinct(visitedOrder)
      ensures forall u :: u in startUrls ==> u in visitedOrder
      ensures forall u, x :: u in visitedOrder && u in pages && x in LinkList(pages[u], u) ==> x in visitedOrder
      ensures forall u :: u in visitedOrder ==> u in Reachable(startUrls, pages)
      ensures yielded == Unseen(MatchesOf(visitedOrder, pages), old(discoveredUrls))
      ensures discoveredUrls == old(discoveredUrls) + Elems(MatchesOf(visitedOrder, pages))
    {
      var queue := startUrls;
      var visited: set<string> := {};
      ghost var reach := Reachable(startUrls, pages);
      ghost var seen0 := discoveredUrls;
      ghost var matches: seq<string> := [];
      yielded := [];
      visitedOrder := [];
      while queue != []
        invariant visited == Elems(visitedOrder) && Db.Distinct(visitedOrder)
        invariant Covered(Elems(startUrls), visited, queue)
        invariant Closed(visited, queue, pages)
        invariant forall u :: u in queue ==> u in reach
        invariant visited <= reach
        invariant matches == MatchesOf(visitedOrder, pages)
        invariant yielded == Unseen(matches, seen0)
        invariant discoveredUrls == seen0 + Elems(matches)
        decreases |reach - visited|, |queue|
      {
        var url := queue[0];
        var rest := queue[1..];
        if url in visited {
          CrawlStep(Elems(startUrls), pages, visited, queue, visited, rest);
          queue := rest;
          continue;
        }
        MatchesOfStep(visitedOrder, pages, url);
        Visited(visitedOrder, url);
        VisitShrinks(reach, visited, url);
        visitedOrder := visitedOrder + [url];
        if url in pages {
          ghost var found := FindAll(pages[url], IsLowerSlugChar);
          var slugs, next := CrawlPage(url, pages[url], rest, visited + {url});
          YieldStep(matches, found, seen0, slugs);
          yielded := yielded + slugs;
          matches := matches + found;
          LinksReachable(startUrls, pages, url);
          CrawlStep(Elems(startUrls), pages, visited, queue, visited + {url}, next);
          queue := next;
        } else {
          CrawlStep(Elems(startUrls), pages, visited, queue, visited + {url}, rest);
          queue := rest;
        }
        visited := visited + {url};
      }
      CrawlDone(startUrls, pages, visitedOrder, visited);
    }

    /**
     * `discover_articles`: crawls from `startUrls` (the three index pages when `None`) and
     * stores each yielded URL the pattern matches under its slug. `visitedOrder` lists the
     * URLs the crawl visited.
     */
    method DiscoverArticles(db: Db.DatabaseManager, startUrls: Option<seq<string>>, pages: map<string, string>)
      returns (discovered: seq<string>, visitedOrder: seq<string>)
      requires db.Valid()
      modifies this, db`urls, db`order
      ensures db.Valid()
      ensures var starts := if startUrls.Some? then startUrls.value else DefaultStartUrls;
        && (forall u :: u in starts ==> u in visitedOrder)
        && (forall u, x :: u in visitedOrder && u in pages && x in LinkList(pages[u], u) ==> x in visitedOrder)
        && (forall u :: u in visitedOrder ==> u in Reachable(starts, pages))
      ensures discovered == Unseen(MatchesOf(visitedOrder, pages), old(discoveredUrls))
      ensures forall x :: x in discovered ==> MatchSlugPatternAsWritten(x).Some? && MatchSlugPatternAsWritten(x).value.full == x
      ensures Stored(old(db.urls), db.urls, discovered)
      ensures forall s :: s in db.urls && s !in old(db.urls) ==>
        s != [] && forall k :: 0 <= k < |s| ==> IsLowerSlugChar(s[k])
    {
      var starts := if startUrls.Some? then startUrls.value else DefaultStartUrls;
      var yielded;
      yielded, visitedOrder := DiscoverFromStartUrls(starts, pages);
      discovered := StoreAll(db, yielded);
      YieldedMatch(visitedOrder, pages, old(discoveredUrls));
      StoredSlugsLower(old(db.urls), db.urls, discovered);
    }
  }
}
