/** The libraries.io collector (disclosurecheck/collectors/librariesio.py). */
module LibrariesIo {
  import opened Base
  import opened Text
  import opened Ordering
  import opened PackageUrls
  import opened AnalysisContext
  import opened UrlRules

  /** libraries.io calls RubyGems "rubygems". */
  function PlatformPurl(p: Purl): (r: Purl)
    ensures r.kind != "gem"
    ensures r.kind == (if p.kind == "gem" then "rubygems" else p.kind)
    ensures r.namespace == p.namespace && r.name == p.name && r.version == p.version
  {
    if p.kind == "gem" then p.(kind := "rubygems") else p
  }

  /** The package name: Maven joins group and artifact with ':', other namespaced
      types with '/'. */
  function PackageName(p: Purl): (r: string)
    ensures !Truthy(p.namespace) ==> r == p.name
    ensures Truthy(p.namespace) ==> r == p.namespace.value + [if p.kind == "maven" then ':' else '/'] + p.name
  {
    if Truthy(p.namespace) then
      if p.kind == "maven" then p.namespace.value + ":" + p.name else p.namespace.value + "/" + p.name
    else p.name
  }

  function ApiUrl(p: Purl): string {
    var q := PlatformPurl(p);
    "https://libraries.io/api/" + q.kind + "/" + PackageName(q)
  }

  /** A name without '/' or ':' can be read back from the package name. */
  lemma PackageNameSplits(p: Purl)
    requires Truthy(p.namespace) && '/' !in p.namespace.value && ':' !in p.namespace.value
    ensures var r := PackageName(p);
      var sep := if p.kind == "maven" then ':' else '/';
      IndexOf(r, sep) == Some(|p.namespace.value|) && r[|p.namespace.value| + 1..] == p.name
  {
    var r := PackageName(p);
    var ns := p.namespace.value;
    var sep := if p.kind == "maven" then ':' else '/';
    assert r == ns + [sep] + p.name;
    assert r[..|ns|] == ns;
    assert r[|ns|] == sep;
    assert sep !in ns;
  }

  // ----- the owner and repository in a URL -----

  datatype OwnerRepo = OwnerRepo(owner: string, repo: string)

  /** The end of the slash-free run starting at `k`. */
  function SegmentEnd(u: string, k: nat): (e: nat)
    requires k <= |u|
    ensures k <= e <= |u|
    ensures '/' !in u[k..e]
    ensures e == |u| || u[e] == '/'
    decreases |u| - k
  {
    if k == |u| || u[k] == '/' then k
    else
      var e := SegmentEnd(u, k + 1);
      assert u[k..e] == [u[k]] + u[k + 1..e];
      e
  }

  /** `github\.com/([^/]+)/([^/]+)` matched from `i`, ignoring case; the greedy second
      group takes the whole next segment, so the optional `(\.git)?` stays empty. */
  function MatchAt(u: string, i: nat): (r: Option<OwnerRepo>)
    ensures r.Some? ==> r.value.owner != "" && r.value.repo != ""
    ensures r.Some? ==> '/' !in r.value.owner && '/' !in r.value.repo
    ensures r.Some? ==> OccursAtIgnoringCase(u, "github.com/", i)
  {
    if !OccursAtIgnoringCase(u, "github.com/", i) then None
    else
      var k := i + 11;
      var m := SegmentEnd(u, k);
      if m == k || m == |u| then None
      else
        var e := SegmentEnd(u, m + 1);
        if e == m + 1 then None
        else Some(OwnerRepo(u[k..m], u[m + 1..e]))
  }

  /** The pattern matches with the leading `.*` spanning `u[..j]`, which cannot cross
      a line break. */
  predicate MatchesAt(u: string, j: nat) {
    j <= |u| && NoNewline(u[..j]) && MatchAt(u, j).Some?
  }

  /** The position `re.match` settles on: the greedy `.*` backs off from the end of the
      first line, so the last position up to `i` that matches wins. */
  function LastMatch(u: string, i: nat): (r: Option<nat>)
    requires i <= |u|
    ensures r.Some? ==> r.value <= i && MatchesAt(u, r.value)
    ensures r.Some? ==> forall k :: r.value < k <= i ==> !MatchesAt(u, k)
    ensures r.None? ==> forall k :: 0 <= k <= i ==> !MatchesAt(u, k)
    decreases i
  {
    if MatchesAt(u, i) then Some(i)
    else if i == 0 then None
    else LastMatch(u, i - 1)
  }

  /** `re.match(r".*github\.com/([^/]+)/([^/]+)(\.git)?", url, re.IGNORECASE)`: the
      owner and repository of the last match on the first line. */
  function GitHubOwnerRepo(u: string): (r: Option<OwnerRepo>)
    ensures r.None? <==> forall j :: 0 <= j <= |u| ==> !MatchesAt(u, j)
    ensures r.Some? ==> exists j: nat :: (MatchesAt(u, j) && r == MatchAt(u, j)
                                          && forall k :: j < k <= |u| ==> !MatchesAt(u, k))
  {
    match LastMatch(u, |u|)
    case None => None
    case Some(j) => MatchAt(u, j)
  }

  /** The greedy second group keeps a ".git" suffix in the repository name. */
  lemma GitSuffixKept()
    ensures GitHubOwnerRepo("github.com/a/b.git") == Some(OwnerRepo("a", "b.git"))
  {
    var u := "github.com/a/b.git";
    assert OccursAtIgnoringCase(u, "github.com/", 0);
    assert SegmentEnd(u, 11) == 12;
    assert SegmentEnd(u, 13) == 18;
    assert u[11..12] == "a" && u[13..18] == "b.git";
    assert MatchAt(u, 0) == Some(OwnerRepo("a", "b.git"));
    assert MatchesAt(u, 0) by {
      assert u[..0] == [];
    }
    forall j | 0 < j <= |u| ensures !MatchesAt(u, j) {
      if j + 11 <= |u| {
        assert Lower(u[j..j + 11])[0] == LowerChar(u[j]);
        assert u[j] in "ithub.c";
      }
    }
  }

  /** What libraries.io answers for a package, when it answers ok. */
  datatype LibraryData = LibraryData(repositoryUrl: Option<string>, homepage: Option<string>)

  /** `set([sanitize(repository_url), sanitize(homepage)])`, skipping falsy entries. */
  function CandidateUrls(data: LibraryData, sanitize: Option<string> -> Option<string>): (r: seq<string>)
    ensures Distinct(r)
    ensures forall u :: u in r <==> u != "" && (sanitize(data.repositoryUrl) == Some(u) || sanitize(data.homepage) == Some(u))
  {
    var all := [sanitize(data.repositoryUrl), sanitize(data.homepage)];
    var kept := Filter((o: Option<string>) => Truthy(o), Dedup(all));
    var r := seq(|kept|, i requires 0 <= i < |kept| => if kept[i].Some? then kept[i].value else "");
    forall i | 0 <= i < |kept| ensures kept[i].Some? && r[i] == kept[i].value {
      assert kept[i] in kept;
    }
    FilterKeepsDistinct(Dedup(all));
    forall i, j | 0 <= i < j < |r| ensures r[i] != r[j] {
      assert kept[i] != kept[j];
    }
    forall u | u in r ensures u != "" && (sanitize(data.repositoryUrl) == Some(u) || sanitize(data.homepage) == Some(u)) {
      var i :| 0 <= i < |r| && r[i] == u;
      assert kept[i] in kept;
      assert kept[i] in all;
    }
    forall u | u != "" && (sanitize(data.repositoryUrl) == Some(u) || sanitize(data.homepage) == Some(u)) ensures u in r {
      assert Some(u) in all;
      assert Some(u) in kept;
      var i :| 0 <= i < |kept| && kept[i] == Some(u);
      assert r[i] == u;
    }
    r
  }

  lemma FilterKeepsDistinct(xs: seq<Option<string>>)
    requires Distinct(xs)
    ensures Distinct(Filter((o: Option<string>) => Truthy(o), xs))
  {
    FilterKeepsOrder((a: Option<string>, b: Option<string>) => false, (o: Option<string>) => Truthy(o), xs);
  }

  /** The related purls one response yields; `toPurl` stands for
      `normalize_packageurl(PackageURL.from_string("pkg:github/" + owner + "/" + repo))`. */
  function RelatedFromUrls(urls: seq<string>, toPurl: (string, string) -> Purl): (r: seq<Purl>)
    ensures |r| <= |urls|
    ensures forall q :: q in r <==>
      exists u :: (u in urls && GitHubOwnerRepo(u).Some?
        && q == toPurl(GitHubOwnerRepo(u).value.owner, GitHubOwnerRepo(u).value.repo))
  {
    if urls == [] then []
    else
      var rest := RelatedFromUrls(urls[1..], toPurl);
      assert forall u :: u in urls <==> u == urls[0] || u in urls[1..];
      match GitHubOwnerRepo(urls[0])
      case None => rest
      case Some(m) => [toPurl(m.owner, m.repo)] + rest
  }

  /** `analyze_librariesio`: only related purls change. `response` is the decoded body
      of an ok answer from `ApiUrl(purl)`, None otherwise. */
  function Analyze(purl: Option<Purl>, response: Option<LibraryData>, sanitize: Option<string> -> Option<string>,
                   toPurl: (string, string) -> Purl, ctx: Context): (r: Context)
    ensures r.packageUrl == ctx.packageUrl && r.notes == ctx.notes && r.contacts == ctx.contacts
    ensures purl.None? || response.None? ==> r == ctx
    ensures |ctx.relatedPurls| <= |r.relatedPurls| <= |ctx.relatedPurls| + 2
    ensures r.relatedPurls[..|ctx.relatedPurls|] == ctx.relatedPurls
    ensures forall q :: q in r.relatedPurls[|ctx.relatedPurls|..] ==> exists a, b :: q == toPurl(a, b) && a != "" && b != ""
    ensures purl.Some? && response.Some? ==>
      r.relatedPurls == ctx.relatedPurls + RelatedFromUrls(CandidateUrls(response.value, sanitize), toPurl)
  {
    if purl.None? then ctx
    else match response
      case None => ctx
      case Some(data) =>
        var urls := CandidateUrls(data, sanitize);
        assert |urls| <= 2 by {
          var all := {sanitize(data.repositoryUrl), sanitize(data.homepage)};
          DistinctBound(urls, {data.repositoryUrl, data.homepage}, sanitize);
        }
        var added := RelatedFromUrls(urls, toPurl);
        var r := ctx.(relatedPurls := ctx.relatedPurls + added);
        assert r.relatedPurls[|ctx.relatedPurls|..] == added;
        r
  }

  /** A distinct list drawn from the images of two values has at most two entries. */
  lemma DistinctBound(urls: seq<string>, sources: set<Option<string>>, sanitize: Option<string> -> Option<string>)
    requires Distinct(urls)
    requires |sources| <= 2
    requires forall u :: u in urls ==> exists o :: o in sources && sanitize(o) == Some(u)
    ensures |urls| <= 2
  {
    var image := set o | o in sources && sanitize(o).Some? :: sanitize(o).value;
    assert |image| <= 2 by { ImageBound(sources, sanitize); }
    var asSet := set u | u in urls;
    assert asSet <= image;
    DistinctCard(urls);
    assert |asSet| <= |image| by { SubsetCard(asSet, image); }
  }

  lemma ImageBound(sources: set<Option<string>>, f: Option<string> -> Option<string>)
    ensures |set o | o in sources && f(o).Some? :: f(o).value| <= |sources|
    decreases |sources|
  {
    var image := set o | o in sources && f(o).Some? :: f(o).value;
    if sources != {} {
      var o :| o in sources;
      var rest := sources - {o};
      ImageBound(rest, f);
      var restImage := set q | q in rest && f(q).Some? :: f(q).value;
      assert image <= restImage + (if f(o).Some? then {f(o).value} else {});
      SubsetCard(image, restImage + (if f(o).Some? then {f(o).value} else {}));
    }
  }

  lemma SubsetCard<T>(a: set<T>, b: set<T>)
    requires a <= b
    ensures |a| <= |b|
  {
    assert b == a + (b - a);
  }

  lemma {:induction false} DistinctCard(xs: seq<string>)
    requires Distinct(xs)
    ensures |set u | u in xs| == |xs|
  {
    if xs != [] {
      var rest := xs[1..];
      assert Distinct(rest) by {
        forall i, j | 0 <= i < j < |rest| ensures rest[i] != rest[j] {
          assert xs[i + 1] != xs[j + 1];
        }
      }
      DistinctCard(rest);
      assert xs[0] !in rest by {
        forall i | 0 <= i < |rest| ensures rest[i] != xs[0] {
          assert xs[i + 1] != xs[0];
        }
      }
      assert (set u | u in xs) == (set u | u in rest) + {xs[0]};
    }
  }
}
