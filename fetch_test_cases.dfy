/**
 * `extractTitleSlug` and `fetchTestCases`: the problem's slug is the first
 * group of the leftmost match of `problems/([^/]+)/` in the URL, and the
 * fetched cases are saved under the fixed directory `testCases/`.
 */
module FetchTestCases {
  import opened Wrappers
  import opened Text
  import opened FileHandler

  const InvalidUrlMessage := "Invalid URL format. Please provide a valid LeetCode problem URL."
  const TestCasesDirectory := "testCases/"
  const LeetCodeHost := "https://leetcode.com/"

  /** The regular expression matches at `p` with `slug` as its group: `problems/`, a non-empty run without `/`, then `/`. */
  predicate MatchesAt(url: string, p: nat, slug: string)
  {
    slug != "" && '/' !in slug && OccursAt(url, "problems/" + slug + "/", p)
  }

  /**
   * The group of a match at `p`, if there is one.  `[^/]+` is greedy and the
   * run it takes can only be followed by `/` or the end of the text, so the
   * only candidate is the whole run of non-slashes after `problems/`.
   */
  function SlugAt(url: string, p: nat): (r: Option<string>)
    ensures r.Some? ==> r.value != "" && '/' !in r.value
  {
    if OccursAt(url, "problems/", p) then
      var e := Span(url, p + 9, NonSlash);
      if p + 9 < e < |url| then Some(url[p + 9..e]) else None
    else None
  }

  /** The group of the leftmost match at or after `p`. */
  function FirstSlug(url: string, p: nat): Option<string>
    decreases |url| - p
  {
    if p > |url| then None
    else
      match SlugAt(url, p)
      case Some(slug) => Some(slug)
      case None => FirstSlug(url, p + 1)
  }

  /** `extractTitleSlug(url)`: the slug, or the error it throws (and rethrows) when there is no match. */
  function ExtractTitleSlug(url: string): (r: Result<string>)
    ensures r.Err? ==> r.message == InvalidUrlMessage
  {
    match FirstSlug(url, 0)
    case Some(slug) => Ok(slug)
    case None => Err(InvalidUrlMessage)
  }

  // ---------------------------------------------------------------- one position

  /** `SlugAt` finds exactly the matches of the regular expression. */
  lemma SlugAtMatches(url: string, p: nat, slug: string)
    ensures SlugAt(url, p) == Some(slug) <==> MatchesAt(url, p, slug)
  {
    if SlugAt(url, p) == Some(slug) {
      var e := Span(url, p + 9, NonSlash);
      assert url[e] == '/';
      assert forall j | 0 <= j < |slug| :: In(slug[j], NonSlash);
      assert url[p..p + 9] == "problems/";
      assert url[p..e + 1] == url[p..p + 9] + url[p + 9..e] + [url[e]];
    }
    if MatchesAt(url, p, slug) {
      var w := "problems/" + slug + "/";
      var e := p + 9 + |slug|;
      assert url[p..p + |w|] == w;
      assert url[p..p + 9] == w[..9];
      assert url[p + 9..e] == url[p..p + |w|][9..9 + |slug|] == w[9..9 + |slug|] == slug;
      assert url[e] == w[|w| - 1] == '/';
      assert forall j | 0 <= j < |slug| :: In(slug[j], NonSlash);
      SpanExact(url, p + 9, e, NonSlash);
    }
  }

  // ---------------------------------------------------------------- the leftmost position

  /** The leftmost position at or after `p0` where the search stops. */
  lemma {:induction false} FirstSlugWitness(url: string, p0: nat) returns (p: nat)
    requires FirstSlug(url, p0).Some?
    ensures p0 <= p && SlugAt(url, p) == FirstSlug(url, p0)
    ensures forall q | p0 <= q < p :: SlugAt(url, q).None?
    decreases |url| - p0
  {
    if SlugAt(url, p0).Some? {
      p := p0;
    } else {
      p := FirstSlugWitness(url, p0 + 1);
    }
  }

  /** The search returns the group of the first position at or after `p0` that matches. */
  lemma {:induction false} FirstSlugAt(url: string, p0: nat, p: nat)
    requires p0 <= p && SlugAt(url, p).Some?
    requires forall q | p0 <= q < p :: SlugAt(url, q).None?
    ensures FirstSlug(url, p0) == SlugAt(url, p)
    decreases p - p0
  {
    assert OccursAt(url, "problems/", p);
    if p0 < p {
      FirstSlugAt(url, p0 + 1, p);
    }
  }

  /** The search finds nothing exactly when no position at or after `p0` matches. */
  lemma {:induction false} FirstSlugNone(url: string, p0: nat)
    ensures FirstSlug(url, p0).None? <==> forall p: nat | p0 <= p :: SlugAt(url, p).None?
    decreases |url| - p0
  {
    if FirstSlug(url, p0).Some? {
      var p := FirstSlugWitness(url, p0);
    } else if p0 <= |url| {
      FirstSlugNone(url, p0 + 1);
    }
  }

  // ---------------------------------------------------------------- extractTitleSlug

  /** The slug returned is the group of the leftmost match, and every such group is returned. */
  lemma ExtractTitleSlugLeftmost(url: string, slug: string)
    ensures ExtractTitleSlug(url) == Ok(slug) <==>
            exists p: nat :: MatchesAt(url, p, slug) && forall q: nat, t | q < p :: !MatchesAt(url, q, t)
  {
    if ExtractTitleSlug(url) == Ok(slug) {
      var p := FirstSlugWitness(url, 0);
      SlugAtMatches(url, p, slug);
      forall q: nat, t | q < p ensures !MatchesAt(url, q, t) {
        SlugAtMatches(url, q, t);
      }
    }
    if exists p: nat :: MatchesAt(url, p, slug) && forall q: nat, t | q < p :: !MatchesAt(url, q, t) {
      var p: nat :| MatchesAt(url, p, slug) && forall q: nat, t | q < p :: !MatchesAt(url, q, t);
      SlugAtMatches(url, p, slug);
      forall q | 0 <= q < p ensures SlugAt(url, q).None? {
        if SlugAt(url, q).Some? {
          SlugAtMatches(url, q, SlugAt(url, q).value);
        }
      }
      FirstSlugAt(url, 0, p);
    }
  }

  /** The URL is rejected, with the fixed message, exactly when the regular expression matches nowhere. */
  lemma ExtractTitleSlugRejects(url: string)
    ensures ExtractTitleSlug(url) == Err(InvalidUrlMessage) <==> forall p: nat, t :: !MatchesAt(url, p, t)
  {
    FirstSlugNone(url, 0);
    forall p: nat, t ensures SlugAt(url, p) == Some(t) <==> MatchesAt(url, p, t) {
      SlugAtMatches(url, p, t);
    }
  }

  /** A returned slug is non-empty, has no `/`, and stands between `problems/` and `/` in the URL. */
  lemma SlugShape(url: string, slug: string)
    requires ExtractTitleSlug(url) == Ok(slug)
    ensures slug != "" && '/' !in slug && Contains(url, "problems/" + slug + "/")
  {
    ExtractTitleSlugLeftmost(url, slug);
  }

  /** In a URL on the LeetCode host no match starts before the path. */
  lemma NoMatchInHost(url: string, q: nat)
    requires StartsWith(url, LeetCodeHost) && q < |LeetCodeHost|
    ensures SlugAt(url, q).None?
  {
    if q + 9 <= |url| {
      assert url[..21] == LeetCodeHost;
      assert url[q] == LeetCodeHost[q];
      if q < 20 {
        assert url[q + 1] == LeetCodeHost[q + 1];
      }
      assert url[q..q + 9][0] == url[q] && url[q..q + 9][1] == url[q + 1];
    }
  }

  /** A problem URL shaped like the URL input box's placeholder (`https://leetcode.com/problems/two-sum/`) yields its slug, whatever follows the closing `/`. */
  lemma ProblemUrlSlug(slug: string, rest: string)
    requires slug != "" && '/' !in slug
    ensures ExtractTitleSlug(LeetCodeHost + "problems/" + slug + "/" + rest) == Ok(slug)
  {
    var url := LeetCodeHost + "problems/" + slug + "/" + rest;
    assert url == LeetCodeHost + ("problems/" + slug + "/") + rest;
    OccursInMiddle(LeetCodeHost, "problems/" + slug + "/", rest);
    assert url[..21] == LeetCodeHost;
    forall q | 0 <= q < 21 ensures SlugAt(url, q).None? {
      NoMatchInHost(url, q);
    }
    SlugAtMatches(url, 21, slug);
    FirstSlugAt(url, 0, 21);
  }

  /** `https://leetcode.com/problems/two-sum/` yields `two-sum`. */
  lemma TwoSumUrl()
    ensures ExtractTitleSlug("https://leetcode.com/problems/two-sum/") == Ok("two-sum")
  {
    ProblemUrlSlug("two-sum", "");
    assert LeetCodeHost + "problems/" + "two-sum" + "/" + "" == "https://leetcode.com/problems/two-sum/";
  }

  /** Without the `/` after the slug the URL is rejected. */
  lemma MissingClosingSlash(slug: string)
    requires slug != "" && '/' !in slug
    ensures ExtractTitleSlug(LeetCodeHost + "problems/" + slug) == Err(InvalidUrlMessage)
  {
    var url := LeetCodeHost + "problems/" + slug;
    assert url[..21] == LeetCodeHost;
    assert url[21..30] == "problems/" && url[30..] == slug;
    forall p: nat | 0 <= p ensures SlugAt(url, p).None? {
      if p < 21 {
        NoMatchInHost(url, p);
      } else if p == 21 {
        assert forall j | 30 <= j < |url| :: In(url[j], NonSlash);
        SpanExact(url, 30, |url|, NonSlash);
      }
    }
    FirstSlugNone(url, 0);
  }

  // ---------------------------------------------------------------- fetchTestCases

  /** The fixed directory cleans to `testCases`. */
  lemma TestCasesDirectoryClean()
    ensures CleanDirectory(TestCasesDirectory) == "testCases"
  {
    assert TestCasesDirectory == "" + "testCases" + "/";
    CleanDirectoryExact("", "testCases", "/");
  }

  /**
   * `fetchTestCases(url)`.  `fetched` stands for `getTestCases` on the slug
   * (the page download and its `<pre>` scan); `base` is the folder
   * `getBaseUri` settles on.  Every error is swallowed, so nothing is
   * returned; the files change only when a slug was found, cases came back,
   * and a folder was at hand.
   */
  method FetchTestCases(url: string, fetched: string -> Result<seq<TestCase>>, store: FixtureStore, base: Option<string>)
    modifies store
    ensures ExtractTitleSlug(url).Err? ==> store.files == old(store.files)
    ensures ExtractTitleSlug(url).Ok? ==>
              match fetched(ExtractTitleSlug(url).value)
              case Err(_) => store.files == old(store.files)
              case Ok(cases) =>
                store.files == if cases == [] || base.None? then old(store.files)
                               else Written(old(store.files), base.value, "testCases", cases)
  {
    var slug := ExtractTitleSlug(url);
    if slug.Err? {
      return;
    }
    var got := fetched(slug.value);
    if got.Err? {
      return;
    }
    TestCasesDirectoryClean();
    var saved := store.SaveTestCases(got.value, TestCasesDirectory, base);
  }
}
