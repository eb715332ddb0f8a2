/**
 * The stand-alone `simple_slug_extractor.py` helpers: a slug is the last `/`-separated
 * segment of a URL, it is valid when it occurs in the known slug list, and that list is
 * the stripped non-empty lines of a text file.
 */
module SimpleSlugExtractor {
  import opened Wrappers
  import opened Text
  import opened Urls

  /** `extract_slug_from_url`: `url.split("/")[-1]`. */
  function ExtractSlugFromUrl(url: string): (slug: string)
    ensures '/' !in slug
    ensures |slug| <= |url| && url[|url| - |slug|..] == slug
    ensures '/' !in url ==> slug == url
    ensures '/' in url ==> |slug| < |url| && url[|url| - |slug| - 1] == '/'
  {
    var i := LastIndexOf(url, '/');
    if i < 0 then url else url[i + 1..]
  }

  /** The slug of an article URL is the article id, whatever its case. */
  lemma {:induction false} ArticleSlugRecovered(id: string)
    requires '/' !in id
    ensures ExtractSlugFromUrl(ArticlePrefix + id) == id
  {
    var url := ArticlePrefix + id;
    var n := |ArticlePrefix|;
    assert url[n - 1] == '/' by {
      assert ArticlePrefix[n - 1] == '/';
    }
    assert url[n..] == id;
    assert LastIndexOf(url, '/') == n - 1;
  }

  /** The ids of the repository's slug test are extracted whole, `--0D-i` included. */
  lemma TestIdsRecovered()
    ensures ExtractSlugFromUrl(ArticlePrefix + "--0D-i") == "--0D-i"
    ensures ExtractSlugFromUrl(ArticlePrefix + "-40DNT") == "-40DNT"
    ensures ExtractSlugFromUrl(ArticlePrefix + "030eSf") == "030eSf"
    ensures ExtractSlugFromUrl(ArticlePrefix + "1302hf") == "1302hf"
  {
    ArticleSlugRecovered("--0D-i");
    ArticleSlugRecovered("-40DNT");
    ArticleSlugRecovered("030eSf");
    ArticleSlugRecovered("1302hf");
  }

  /** `validate_slug_against_list`: `slug in known_slugs`. */
  function ValidateSlugAgainstList(slug: string, knownSlugs: seq<string>): (valid: bool)
    ensures valid <==> exists k :: 0 <= k < |knownSlugs| && knownSlugs[k] == slug
  {
    slug in knownSlugs
  }

  /** `[line.strip() for line in lines if line.strip()]`. */
  function KnownSlugs(lines: seq<string>): (slugs: seq<string>)
    ensures |slugs| <= |lines|
    ensures forall k :: 0 <= k < |slugs| ==>
      slugs[k] != [] && !IsSpace(slugs[k][0]) && !IsSpace(slugs[k][|slugs[k]| - 1])
  {
    if lines == [] then []
    else
      var slug := Strip(lines[|lines| - 1]);
      KnownSlugs(lines[..|lines| - 1]) + (if slug != [] then [slug] else [])
  }

  /** Lines are filtered one by one, in file order. */
  lemma {:induction false} KnownSlugsAppend(a: seq<string>, b: seq<string>)
    ensures KnownSlugs(a + b) == KnownSlugs(a) + KnownSlugs(b)
    decreases |b|
  {
    if b == [] {
      assert a + b == a;
    } else {
      var b0 := b[..|b| - 1];
      assert (a + b)[..|a + b| - 1] == a + b0;
      assert (a + b)[|a + b| - 1] == b[|b| - 1];
      KnownSlugsAppend(a, b0);
    }
  }

  /** A line of whitespace only strips to nothing. */
  lemma StripBlank(blank: string)
    requires forall k :: 0 <= k < |blank| ==> IsSpace(blank[k])
    ensures Strip(blank) == []
  {
    assert LeadingCount(blank, IsSpace) == |blank|;
  }

  /** Blank lines, and lines of whitespace only, contribute nothing. */
  lemma BlankLinesDropped(a: seq<string>, blank: string, b: seq<string>)
    requires forall k :: 0 <= k < |blank| ==> IsSpace(blank[k])
    ensures KnownSlugs(a + [blank] + b) == KnownSlugs(a) + KnownSlugs(b)
  {
    assert KnownSlugs(a + [blank]) == KnownSlugs(a) by {
      assert KnownSlugs([blank]) == [] by {
        StripBlank(blank);
        assert [blank][..0] == [];
      }
      KnownSlugsAppend(a, [blank]);
    }
    KnownSlugsAppend(a + [blank], b);
  }

  /**
   * `load_known_slugs`: the file's stripped non-empty lines in order; a file that cannot be
   * opened raises, which reaches the caller.
   */
  function LoadKnownSlugs(file: Result<string>): (r: Result<seq<string>>)
    ensures file.Failure? ==> r == Failure(file.error)
    ensures file.Success? ==> r == Success(KnownSlugs(FileLines(file.value)))
  {
    match file
    case Failure(e) => Failure(e)
    case Success(text) => Success(KnownSlugs(FileLines(text)))
  }

  /** A slug list written one non-empty, whitespace-free slug per line loads back unchanged. */
  lemma {:induction false} SlugListRoundTrip(slugs: seq<string>)
    requires forall k :: 0 <= k < |slugs| ==> slugs[k] != []
    requires forall k, j :: 0 <= k < |slugs| && 0 <= j < |slugs[k]| ==> !IsSpace(slugs[k][j])
    ensures LoadKnownSlugs(Success(JoinLines(slugs))) == Success(slugs)
    decreases |slugs|
  {
    if slugs != [] {
      var slug := slugs[0];
      assert '\n' !in slug by {
        assert IsSpace('\n');
      }
      FileLinesOfJoinCons(slugs);
      SlugListRoundTrip(slugs[1..]);
      KnownSlugsAppend([slug + "\n"], FileLines(JoinLines(slugs[1..])));
      StripLine(slug);
      assert [slug + "\n"][..0] == [];
      assert KnownSlugs([slug + "\n"]) == [slug];
      assert slugs == [slug] + slugs[1..];
    }
  }

  /** An article whose id is in the saved list is validated against the loaded list. */
  lemma ListedArticleValidates(id: string, slugs: seq<string>)
    requires '/' !in id && id in slugs
    requires forall k :: 0 <= k < |slugs| ==> slugs[k] != []
    requires forall k, j :: 0 <= k < |slugs| && 0 <= j < |slugs[k]| ==> !IsSpace(slugs[k][j])
    ensures LoadKnownSlugs(Success(JoinLines(slugs))).Success?
    ensures ValidateSlugAgainstList(ExtractSlugFromUrl(ArticlePrefix + id), LoadKnownSlugs(Success(JoinLines(slugs))).value)
  {
    SlugListRoundTrip(slugs);
    ArticleSlugRecovered(id);
  }
}
