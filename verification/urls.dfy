/**
 * URLs as the scraper sees them: Python's `urlparse` split into scheme, authority (netloc),
 * path, params, query and fragment (the split of section 3 of RFC 3986 as `urllib.parse`
 * performs it), the `scheme://netloc+path` cleaning used by every URL collector, and the
 * article-URL regular expressions written as character-class predicates.
 */
module Urls {
  import opened Wrappers
  import opened Text

  datatype UrlParts = UrlParts(
    scheme: string, netloc: string, path: string, params: string, query: string, fragment: string)

  /** Characters `urllib.parse` accepts inside a scheme. */
  predicate IsSchemeChar(c: char) { IsAsciiAlpha(c) || IsDigit(c) || c == '+' || c == '-' || c == '.' }

  /** Schemes for which `urlparse` splits off `;params` from the last path segment. */
  const UsesParams: set<string> :=
    {"", "ftp", "hdl", "prospero", "http", "imap", "https", "shttp", "rtsp", "rtsps", "rtspu",
     "sip", "sips", "mms", "sftp", "tel"}

  /**
   * The scheme step of `urlsplit`: everything before the first `:` is a scheme when it is
   * non-empty, starts with an ASCII letter and consists of scheme characters.
   */
  function SplitScheme(url: string): (r: (string, string))
    ensures r.0 == [] ==> r.1 == url
    ensures r.0 != [] ==>
      |r.0| < |url| && url[|r.0|] == ':' && r.0 == Lower(url[..|r.0|]) && r.1 == url[|r.0| + 1..]
    ensures forall k :: 0 <= k < |r.0| ==> IsSchemeChar(r.0[k])
  {
    var i := FindIn(url, {':'});
    if 0 < i < |url| && IsAsciiAlpha(url[0]) && forall k :: 0 <= k < i ==> IsSchemeChar(url[k]) then
      (Lower(url[..i]), url[i + 1..])
    else
      ("", url)
  }

  /** The authority step: after a leading `//`, the netloc runs up to the first `/`, `?` or `#`. */
  function SplitNetloc(url: string): (r: (string, string))
    ensures r.0 + r.1 == url || ("//" <= url && "//" + r.0 + r.1 == url)
    ensures forall k :: 0 <= k < |r.0| ==> r.0[k] !in {'/', '?', '#'}
    ensures r.1 != [] && "//" <= url ==> r.1[0] in {'/', '?', '#'}
  {
    if |url| >= 2 && url[..2] == "//" then
      var j := 2 + FindIn(url[2..], {'/', '?', '#'});
      assert url == "//" + url[2..j] + url[j..];
      (url[2..j], url[j..])
    else
      ("", url)
  }

  /** `s.split(c, 1)` when `c` occurs, else `(s, "")`. */
  function SplitAt(s: string, c: char): (r: (string, string))
    ensures c !in r.0
    ensures r.0 <= s
    ensures r.0 == s || (|r.0| < |s| && s[|r.0|] == c && s == r.0 + [c] + r.1)
    ensures c !in s ==> r == (s, "")
  {
    var i := FindIn(s, {c});
    if i < |s| then
      assert s == s[..i] + [c] + s[i + 1..];
      (s[..i], s[i + 1..])
    else
      (s, "")
  }

  /** `_splitparams`: cut at the first `;` at or after the last `/` (anywhere when there is none). */
  function SplitParams(p: string): (r: (string, string))
    ensures r.0 <= p
    ensures |r.0| < |p| ==> p[|r.0|] == ';'
    ensures |r.0| >= LastIndexOf(p, '/')
    ensures ParamFree(r.0)
  {
    var s := LastIndexOf(p, '/');
    var start := if s < 0 then 0 else s;
    var i := start + FindIn(p[start..], {';'});
    if i < |p| then
      assert LastIndexOf(p[..i], '/') == s by { LastIndexOfPrefix(p, i, s); }
      (p[..i], p[i + 1..])
    else
      (p, "")
  }

  /** No `;` at or after the last `/`: `_splitparams` finds nothing to cut. */
  predicate ParamFree(p: string) {
    var s := LastIndexOf(p, '/');
    forall k :: (if s < 0 then 0 else s) <= k < |p| ==> p[k] != ';'
  }

  lemma LastIndexOfPrefix(p: string, i: nat, s: int)
    requires i <= |p| && s == LastIndexOf(p, '/') && s < i
    ensures LastIndexOf(p[..i], '/') == s
  {
    var t := LastIndexOf(p[..i], '/');
    if t >= 0 {
      assert p[t] == '/';
    }
    if s >= 0 {
      assert p[..i][s] == '/';
    }
  }

  lemma SchemeHasNoHash(s: string)
    requires forall k :: 0 <= k < |s| ==> IsSchemeChar(s[k])
    ensures '#' !in s && '?' !in s
  {
  }

  /** Python's `urlparse(url)` (with fragments allowed). */
  function Parse(url: string): UrlParts {
    var (scheme, rest) := SplitScheme(url);
    var (netloc, rest2) := SplitNetloc(rest);
    var (rest3, fragment) := SplitAt(rest2, '#');
    var (path0, query) := SplitAt(rest3, '?');
    var (path, params) := if scheme in UsesParams then SplitParams(path0) else (path0, "");
    UrlParts(scheme, netloc, path, params, query, fragment)
  }

  /** A character missing from a sequence is missing from its prefixes. */
  lemma NotInPrefix(c: char, a: string, b: string)
    requires a <= b && c !in b
    ensures c !in a
  {
    forall k | 0 <= k < |a| ensures a[k] != c {
      assert a[k] == b[k];
    }
  }

  /** What follows the first `c` holds no character the whole text lacks. */
  lemma SplitAtTailLacks(s: string, c: char, d: char)
    requires d !in s
    ensures d !in SplitAt(s, c).1
  {
    var r := SplitAt(s, c);
    if c in s {
      assert s == r.0 + [c] + r.1;
      forall k | 0 <= k < |r.1| ensures r.1[k] != d {
        assert r.1[k] == s[|r.0| + 1 + k];
      }
    }
  }

  /**
   * Each part `urlparse` returns stops before the separator that ends it: no `?` or `#` in
   * the scheme, no `/`, `?` or `#` in the netloc, no `?` or `#` in the path, no `#` in the query.
   */
  lemma ParseSeparators(url: string)
    ensures var p := Parse(url);
      '#' !in p.scheme && '?' !in p.scheme &&
      '/' !in p.netloc && '?' !in p.netloc && '#' !in p.netloc &&
      '?' !in p.path && '#' !in p.path && '#' !in p.query
  {
    var p := Parse(url);
    var rest := SplitScheme(url).1;
    var rest3 := SplitAt(SplitNetloc(rest).1, '#').0;
    var path0 := SplitAt(rest3, '?').0;
    assert '#' !in p.scheme && '?' !in p.scheme by {
      assert p.scheme == SplitScheme(url).0;
      SchemeHasNoHash(p.scheme);
    }
    assert '/' !in p.netloc && '?' !in p.netloc && '#' !in p.netloc by {
      assert p.netloc == SplitNetloc(rest).0;
    }
    assert '?' !in p.path && '#' !in p.path by {
      assert p.path <= path0;
      NotInPrefix('#', path0, rest3);
      NotInPrefix('?', p.path, path0);
      NotInPrefix('#', p.path, path0);
    }
    assert '#' !in p.query by {
      assert p.query == SplitAt(rest3, '?').1;
      SplitAtTailLacks(rest3, '?', '#');
    }
  }

  /** `f"{parsed.scheme}://{parsed.netloc}{parsed.path}"`: the URL without params, query and fragment. */
  function Clean(url: string): string {
    var p := Parse(url);
    p.scheme + "://" + p.netloc + p.path
  }

  /** `Clean` followed by `?query` when the query is non-empty (the link normaliser of the crawler). */
  function Normalize(url: string): string {
    var p := Parse(url);
    Clean(url) + (if p.query != [] then "?" + p.query else "")
  }

  /** A normalised URL never carries a fragment. */
  lemma NormalizeHasNoFragment(url: string)
    ensures '#' !in Normalize(url)
  {
    CleanHasNoQueryOrFragment(url);
    ParseSeparators(url);
    var p := Parse(url);
    var q := if p.query != [] then "?" + p.query else "";
    assert '#' !in q;
    assert Normalize(url) == Clean(url) + q;
  }

  // ---------------------------------------------------------------- the article shape

  /** `settings.base_url`. */
  const Origin := "https" + "://" + "next.amboss.com"

  /** The literal part of `https://next\.amboss\.com/de/article/([a-zA-Z0-9-]+)`. */
  const ArticlePrefix := Origin + "/de/article/"

  /** The second alternative of `settings.article_pattern`. */
  const KnowledgePrefix := Origin + "/de/knowledge/"

  /** The path part `urlparse` yields for `Origin + t` when `t` starts with `/`. */
  function PathOf(t: string): string {
    SplitParams(SplitAt(SplitAt(t, '#').0, '?').0).0
  }

  lemma ColonOnOrigin(t: string)
    ensures FindIn(Origin + t, {':'}) == 5
    ensures (Origin + t)[..5] == "https"
    ensures (Origin + t)[6..] == "//next.amboss.com" + t
  {
    var url := Origin + t;
    assert url[5] == ':';
    assert forall k :: 0 <= k < 5 ==> url[k] == "https"[k];
  }

  lemma SchemeOnOrigin(t: string)
    ensures SplitScheme(Origin + t) == ("https", "//next.amboss.com" + t)
  {
    var url := Origin + t;
    ColonOnOrigin(t);
    assert IsAsciiAlpha(url[0]);
    assert forall k :: 0 <= k < 5 ==> IsSchemeChar(url[k]);
    assert Lower("https") == "https";
  }

  lemma NetlocOnOrigin(t: string)
    requires t != [] && t[0] == '/'
    ensures SplitNetloc("//next.amboss.com" + t) == ("next.amboss.com", t)
  {
    var rest := "//next.amboss.com" + t;
    assert rest[2..] == "next.amboss.com" + t;
    assert rest[2..][15] == '/';
    assert forall k :: 0 <= k < 15 ==> rest[2..][k] == "next.amboss.com"[k];
    assert FindIn(rest[2..], {'/', '?', '#'}) == 15;
    assert rest[2..17] == "next.amboss.com";
    assert rest[17..] == t;
  }

  lemma ParseOnOrigin(t: string)
    requires t != [] && t[0] == '/'
    ensures Parse(Origin + t).scheme == "https"
    ensures Parse(Origin + t).netloc == "next.amboss.com"
    ensures Parse(Origin + t).path == PathOf(t)
    ensures Clean(Origin + t) == Origin + PathOf(t)
  {
    SchemeOnOrigin(t);
    NetlocOnOrigin(t);
    var url := Origin + t;
    var p := Parse(url);
    assert p.scheme == "https" && p.netloc == "next.amboss.com";
    assert "https" in UsesParams;
    assert p.path == SplitParams(SplitAt(SplitAt(t, '#').0, '?').0).0;
    assert Clean(url) == Origin + p.path;
  }

  /** Characters that end the path: the fragment mark, the query mark and `;params`. */
  predicate IsPathStop(c: char) { c == '#' || c == '?' || c == ';' }

  lemma PrefixTrans(x: string, y: string, z: string)
    requires x <= y && y <= z
    ensures x <= z && x == z[..|x|]
  {
    assert x == y[..|x|] && y == z[..|y|];
  }

  /** `PathOf(t)` is a prefix of `t`, cut at a path stop when it is shorter. */
  lemma PathOfPrefix(t: string)
    ensures PathOf(t) <= t
    ensures |PathOf(t)| < |t| ==> IsPathStop(t[|PathOf(t)|])
  {
    var a := SplitAt(t, '#').0;
    var b := SplitAt(a, '?').0;
    var p := SplitParams(b).0;
    PrefixTrans(b, a, t);
    PrefixTrans(p, b, t);
    if |p| < |t| {
      if |p| < |b| {
        assert t[|p|] == b[|p|];
      } else if |b| < |a| {
        assert t[|b|] == a[|b|];
      }
    }
  }

  /** `PathOf(t)` keeps `t[..m]` when no path stop lies before `m` after a `/` at `j`. */
  lemma PathOfKeeps(t: string, j: nat, m: nat)
    requires j < m <= |t| && t[j] == '/'
    requires forall k :: 0 <= k < m ==> t[k] != '#' && t[k] != '?'
    requires forall k :: j < k < m ==> t[k] != ';'
    ensures t[..m] <= PathOf(t)
    ensures PathOf(t) <= t
    ensures |PathOf(t)| < |t| ==> IsPathStop(t[|PathOf(t)|])
  {
    var a := SplitAt(t, '#').0;
    assert |a| >= m;
    var b := SplitAt(a, '?').0;
    assert |b| >= m;
    var p := SplitParams(b).0;
    assert LastIndexOf(b, '/') >= j by { assert b[j] == '/'; }
    assert |p| >= m;
    PathOfPrefix(t);
  }

  /** A cleaned path carries no path stop: cleaning it again changes nothing. */
  lemma PathOfIdempotent(t: string)
    ensures PathOf(PathOf(t)) == PathOf(t)
  {
    var p := PathOf(t);
    var b := SplitAt(SplitAt(t, '#').0, '?').0;
    assert '#' !in p && '?' !in p by {
      assert forall c :: c in p ==> c in b;
    }
    assert SplitAt(p, '#').0 == p;
    assert SplitAt(p, '?').0 == p;
    var s := LastIndexOf(p, '/');
    var start := if s < 0 then 0 else s;
    assert FindIn(p[start..], {';'}) == |p| - start;
  }

  // ---------------------------------------------------------------- article patterns

  /** A successful `re.match`: the whole match (group 0) and the slug (group 1). */
  datatype ArticleMatch = ArticleMatch(full: string, slug: string)

  /**
   * `re.match(prefix + "(" + inClass + "+)", u)`: the prefix, then the longest non-empty run of
   * `inClass` characters.
   */
  function MatchPrefixRun(u: string, prefix: string, inClass: char -> bool): (r: Option<ArticleMatch>)
    ensures r.Some? <==> prefix <= u && |u| > |prefix| && inClass(u[|prefix|])
    ensures r.Some? ==>
      r.value.full <= u && r.value.full == prefix + r.value.slug && r.value.slug != []
      && (forall k :: 0 <= k < |r.value.slug| ==> inClass(r.value.slug[k]))
      && (|r.value.full| < |u| ==> !inClass(u[|r.value.full|]))
  {
    if prefix <= u && |u| > |prefix| && inClass(u[|prefix|]) then
      var n := LeadingCount(u[|prefix|..], inClass);
      assert u[..|prefix| + n] == prefix + u[|prefix|..][..n];
      Some(ArticleMatch(u[..|prefix| + n], u[|prefix|..][..n]))
    else
      None
  }

  /** `re.compile(r'https://next\.amboss\.com/de/article/([a-zA-Z0-9-]+)').match(u)`. */
  function MatchArticle(u: string): Option<ArticleMatch> {
    MatchPrefixRun(u, ArticlePrefix, IsSlugChar)
  }

  /**
   * `re.compile(r"https://next\.amboss\.com/de/(?:article|knowledge)/(" + cls + "+)").match(u)`
   * with `inClass` for the character class `cls`: the article alternative first, then the
   * knowledge one.
   */
  function MatchConfigured(u: string, inClass: char -> bool): (r: Option<ArticleMatch>)
    ensures r.Some? ==>
      && r.value.full <= u && r.value.slug != []
      && (forall k :: 0 <= k < |r.value.slug| ==> inClass(r.value.slug[k]))
      && (r.value.full == ArticlePrefix + r.value.slug || r.value.full == KnowledgePrefix + r.value.slug)
    ensures r.None? <==> MatchPrefixRun(u, ArticlePrefix, inClass).None?
                         && MatchPrefixRun(u, KnowledgePrefix, inClass).None?
  {
    var a := MatchPrefixRun(u, ArticlePrefix, inClass);
    if a.Some? then a else MatchPrefixRun(u, KnowledgePrefix, inClass)
  }

  /** A cleaned URL carries neither a query nor a fragment. */
  lemma CleanHasNoQueryOrFragment(url: string)
    ensures '?' !in Clean(url) && '#' !in Clean(url)
  {
    ParseSeparators(url);
    var p := Parse(url);
    assert Clean(url) == p.scheme + "://" + p.netloc + p.path;
    NotInJoin('?', p.scheme, p.netloc, p.path);
    NotInJoin('#', p.scheme, p.netloc, p.path);
  }

  /** A character other than `:` and `/` that none of the parts holds is not in `scheme://netloc+path`. */
  lemma NotInJoin(c: char, scheme: string, netloc: string, path: string)
    requires c != ':' && c != '/' && c !in scheme && c !in netloc && c !in path
    ensures c !in scheme + "://" + netloc + path
  {
    var s := scheme + "://" + netloc + path;
    forall k | 0 <= k < |s| ensures s[k] != c {
      if k < |scheme| {
        assert s[k] == scheme[k];
      } else if k < |scheme| + 3 {
        assert s[k] == "://"[k - |scheme|];
      } else if k < |scheme| + 3 + |netloc| {
        assert s[k] == netloc[k - |scheme| - 3];
      } else {
        assert s[k] == path[k - |scheme| - 3 - |netloc|];
      }
    }
  }

  /** A match only depends on the text up to its end. */
  lemma MatchOnPrefix(u: string, c: string, prefix: string, inClass: char -> bool)
    requires MatchPrefixRun(u, prefix, inClass).Some?
    requires c <= u && |MatchPrefixRun(u, prefix, inClass).value.full| <= |c|
    ensures MatchPrefixRun(c, prefix, inClass) == MatchPrefixRun(u, prefix, inClass)
  {
    var m := MatchPrefixRun(u, prefix, inClass).value;
    assert prefix <= c && c[|prefix|] == u[|prefix|];
    var m2 := MatchPrefixRun(c, prefix, inClass).value;
    assert |m2.full| == |m.full|;
    assert m2.full == c[..|m.full|] == u[..|m.full|] == m.full;
    assert m2.slug == m2.full[|prefix|..] && m.slug == m.full[|prefix|..];
  }

  /** Cleaning an article URL keeps at least the matched part. */
  lemma CleanKeepsMatch(u: string)
    requires MatchArticle(u).Some?
    ensures Clean(u) <= u
    ensures |MatchArticle(u).value.full| <= |Clean(u)|
    ensures Clean(u) == Origin + PathOf(u[|Origin|..])
    ensures PathOf(u[|Origin|..]) != [] && PathOf(u[|Origin|..])[0] == '/'
  {
    var m := MatchArticle(u).value;
    var t := u[|Origin|..];
    ArticleTail(u);
    PathOfKeeps(t, 11, 12 + |m.slug|);
    ParseOnOrigin(t);
    var c := Clean(u);
    assert c == Origin + PathOf(t);
    PrefixUnderPrefix(Origin, PathOf(t), t);
  }

  /** Extending two sequences by the same front keeps one a prefix of the other. */
  lemma PrefixUnderPrefix<T>(a: seq<T>, b: seq<T>, c: seq<T>)
    requires b <= c
    ensures a + b <= a + c
  {
    assert (a + c)[..|a + b|] == a + c[..|b|];
  }

  lemma ArticleTail(u: string)
    requires MatchArticle(u).Some?
    ensures u == Origin + u[|Origin|..]
    ensures var t := u[|Origin|..]; var n := |MatchArticle(u).value.slug|;
      12 + n <= |t| && t[..12] == "/de/article/"
      && forall k :: 12 <= k < 12 + n ==> IsSlugChar(t[k])
  {
    var m := MatchArticle(u).value;
    var t := u[|Origin|..];
    assert u[..|ArticlePrefix|] == ArticlePrefix;
    assert forall k :: 12 <= k < 12 + |m.slug| ==> t[k] == m.slug[k - 12];
  }

  /** A URL matching the article pattern cleans to a prefix of itself that still matches, with the same slug. */
  lemma CleanArticle(u: string)
    requires MatchArticle(u).Some?
    ensures Clean(u) <= u
    ensures MatchArticle(Clean(u)) == MatchArticle(u)
    ensures '?' !in Clean(u) && '#' !in Clean(u)
    ensures Clean(Clean(u)) == Clean(u)
  {
    CleanKeepsMatch(u);
    MatchOnPrefix(u, Clean(u), ArticlePrefix, IsSlugChar);
    CleanHasNoQueryOrFragment(u);
    var t := u[|Origin|..];
    ParseOnOrigin(PathOf(t));
    PathOfIdempotent(t);
  }
}
