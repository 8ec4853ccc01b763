/** The GitHub collector (disclosurecheck/collectors/github.py). Every remote answer
    (the token's rate limits, the repository record, HTTP responses, code-search hits,
    closed pull requests, user e-mails) is an input value. */
module GitHub {
  import opened Base
  import opened Text
  import opened Ordering
  import opened PackageUrls
  import opened Contacts
  import opened AnalysisContext
  import opened Searchers
  import UrlRules

  const MaxPullsToCheck: nat := 20
  const MaxContentSearchFiles: nat := 30

  /** `COMMON_SECURITY_MD_PATHS`, listed once each. */
  const SecurityMdPaths: seq<string> := [
    ".github/security.adoc", ".github/security.markdown", ".github/security.rst",
    ".github/security.md", ".github/SECURITY.md", "doc/security.rst", "doc/security.md",
    "docs/security.adoc", "docs/security.markdown", "docs/security.md", "docs/security.rst",
    "security.adoc", "security.markdown", "security.rst", "security.md", "Security.md",
    "SECURITY.md"]

  /** `COMMON_OTHER_FILE_PATHS`. */
  const OtherFilePaths: seq<string> := ["%name%.gemspec", "Cargo.toml", "LICENSE", "composer.json"]

  const SecurityMdPriority: int := 10
  const OtherFilePriority: int := 35
  const OwnerEmailPriority: int := 25
  const SearchHitPriority: int := 25
  const MergerPriority: int := 65
  const DefaultBranch: string := "master"
  const NameMarker: string := "%name%"

  // ----- the token gate -----

  datatype RateLimit = RateLimit(coreRemaining: int, searchRemaining: int)

  /** `get_github_token`: the environment's token, unless it is unset or empty or
      either quota is exhausted. */
  function GitHubToken(env: Option<string>, rate: RateLimit): (r: Option<string>)
    ensures r.Some? <==> Truthy(env) && rate.searchRemaining != 0 && rate.coreRemaining != 0
    ensures r.Some? ==> r == env
  {
    if !Truthy(env) then None
    else if rate.searchRemaining == 0 || rate.coreRemaining == 0 then None
    else env
  }

  // ----- the repository record and its notes -----

  datatype Repository = Repository(
    ownerLogin: string, name: string, fork: bool, archived: bool,
    defaultBranch: string, ownerEmail: Option<string>)

  /** `f"{purl.namespace}/{purl.name}"`. */
  function RepoPath(p: Purl): string {
    NamespaceText(p) + "/" + p.name
  }

  function ForkNote(p: Purl): string {
    "Repository [bold blue]" + RepoPath(p) + "[/bold blue] is a fork."
  }

  function ArchivedNote(p: Purl): string {
    "Repository [bold blue]" + RepoPath(p) + "[/bold blue] has been archived."
  }

  function MovedNote(p: Purl, repo: Repository): string {
    "Repository was moved from [bold blue]" + RepoPath(p) + "[/bold blue] to [bold blue]"
    + repo.ownerLogin + "/" + repo.name + "[/bold blue]."
  }

  /** The notes on a forked or archived repository, in that order. */
  function StateNotes(p: Purl, repo: Repository): (r: seq<string>)
    ensures |r| == (if repo.fork then 1 else 0) + (if repo.archived then 1 else 0)
    ensures ForkNote(p) in r <==> repo.fork
    ensures ArchivedNote(p) in r <==> repo.archived
  {
    assert ForkNote(p) != ArchivedNote(p) by {
      var k := |"Repository [bold blue]" + RepoPath(p) + "[/bold blue] "|;
      assert ForkNote(p)[k] == 'i' && ArchivedNote(p)[k] == 'h';
    }
    (if repo.fork then [ForkNote(p)] else []) + (if repo.archived then [ArchivedNote(p)] else [])
  }

  /** The repository answering for the purl has another owner or name, ignoring case.
      `analyze` consults it only for a purl with a namespace. */
  predicate Renamed(p: Purl, repo: Repository) {
    Lower(repo.ownerLogin) != Lower(NamespaceText(p)) || Lower(repo.name) != Lower(p.name)
  }

  lemma LowerIdempotent(s: string)
    ensures Lower(Lower(s)) == Lower(s)
  {
  }

  /** The purl with its namespace and name lower-cased. */
  function FoldPurl(p: Purl): Purl {
    p.(namespace := if p.namespace.Some? then Some(Lower(p.namespace.value)) else None, name := Lower(p.name))
  }

  /** The repository with its owner and name lower-cased. */
  function FoldRepository(repo: Repository): Repository {
    repo.(ownerLogin := Lower(repo.ownerLogin), name := Lower(repo.name))
  }

  /** Case matters on neither side of the rename check: folding the purl, the
      repository, or both gives the same answer. */
  lemma RenamedIgnoresCase(p: Purl, repo: Repository)
    ensures Renamed(p, repo) <==> Renamed(FoldPurl(p), repo)
    ensures Renamed(p, repo) <==> Renamed(p, FoldRepository(repo))
    ensures Renamed(p, repo) <==> Renamed(FoldPurl(p), FoldRepository(repo))
  {
    LowerIdempotent(repo.ownerLogin);
    LowerIdempotent(repo.name);
    LowerIdempotent(p.name);
    if p.namespace.Some? {
      LowerIdempotent(p.namespace.value);
    }
  }

  // ----- private vulnerability reporting -----

  function PvrApiUrl(org: string, repo: string): string {
    "https://api.github.com/repos/" + org + "/" + repo + "/private-vulnerability-reporting"
  }

  function AdvisoriesPage(org: string, repo: string): string {
    "https://github.com/" + org + "/" + repo + "/security/advisories"
  }

  function AdvisoryFormUrl(org: string, repo: string): string {
    AdvisoriesPage(org, repo) + "/new"
  }

  /** The URLs requested and the contact found. */
  datatype PvrCheck = PvrCheck(requested: seq<string>, contact: Option<Contact>)

  /** The REST answer decides when its status is 200; otherwise the advisories page is
      fetched and searched for the reporting button. */
  function CheckPvr(org: string, repo: string, status: int, enabled: bool, page: string): (r: PvrCheck)
    ensures status == 200 ==> r.requested == [PvrApiUrl(org, repo)] && (r.contact.Some? <==> enabled)
    ensures status != 200 ==>
      r.requested == [PvrApiUrl(org, repo), AdvisoriesPage(org, repo)]
      && (r.contact.Some? <==> Contains(page, "Report a vulnerability"))
    ensures r.contact.Some? ==>
      r.contact.value == Contact(0, "github_pvr", AdvisoryFormUrl(org, repo), Some(r.requested[|r.requested| - 1]), None)
  {
    var form := AdvisoryFormUrl(org, repo);
    if status == 200 then
      var api := PvrApiUrl(org, repo);
      PvrCheck([api], if enabled then Some(Contact(0, "github_pvr", form, Some(api), None)) else None)
    else
      var pageUrl := AdvisoriesPage(org, repo);
      PvrCheck([PvrApiUrl(org, repo), pageUrl],
        if Contains(page, "Report a vulnerability") then Some(Contact(0, "github_pvr", form, Some(pageUrl), None)) else None)
  }

  /** The reporting form this collector records is the one the URL ladder also
      classifies as `github_pvr`. */
  lemma AdvisoryFormRecognised(org: string, repo: string)
    requires NoNewline(org) && NoNewline(repo)
    ensures UrlRules.AdvisoryForm(AdvisoryFormUrl(org, repo))
  {
    var u := AdvisoryFormUrl(org, repo);
    var a := "https://github.com/";
    var b := "/security/advisories/new";
    assert u == a + org + "/" + repo + b;
    assert u[|u| - 1] == 'w';
    assert DropFinalNewline(u) == u;
    forall i | 0 <= i < |u| ensures u[i] != '\n' {
      if i < |a| {
        assert u[i] == a[i];
      } else if i < |a| + |org| {
        assert u[i] == org[i - |a|];
      } else if i == |a| + |org| {
        assert u[i] == '/';
      } else if i < |a| + |org| + 1 + |repo| {
        assert u[i] == repo[i - |a| - |org| - 1];
      } else {
        assert u[i] == b[i - |a| - |org| - 1 - |repo|];
      }
    }
    assert u[|u| - |b|..] == b;
  }

  // ----- probe targets -----

  /** One `(purl, filename, context, branch, priority)` tuple of `_args`. */
  datatype ProbeTarget = ProbeTarget(purl: Purl, filename: string, branch: string, priority: int)

  /** `{namespace}/.github`, the organisation's profile repository. */
  function OrgPurl(p: Purl): Purl {
    Purl("github", p.namespace, ".github", None)
  }

  /** `if "%name%" in filename: filename = filename.replace("%name%", purl.name)`:
      every occurrence of the marker becomes the package name. */
  function SubstituteName(filename: string, name: string): (r: string)
    ensures r == Join(Split(filename, NameMarker), name)
    ensures !Contains(filename, NameMarker) ==> r == filename
  {
    ReplaceIsJoinOfSplit(filename, NameMarker, name);
    ReplaceFacts(filename, NameMarker, name);
    if Contains(filename, NameMarker) then Replace(filename, NameMarker, name) else filename
  }

  /** The probes one path set contributes, package repository first. */
  function Targets(paths: seq<string>, p: Purl, branch: string, orgBranch: Option<string>, priority: int): (r: seq<ProbeTarget>)
    ensures |r| == |paths| * (if orgBranch.Some? then 2 else 1)
    ensures forall t :: t in r ==> t.priority == priority
    ensures forall t :: t in r ==>
      (t.purl == p && t.branch == branch) || (orgBranch.Some? && t.purl == OrgPurl(p) && t.branch == orgBranch.value)
    ensures forall f :: f in paths ==> ProbeTarget(p, SubstituteName(f, p.name), branch, priority) in r
    ensures forall f :: f in paths && orgBranch.Some? ==>
      ProbeTarget(OrgPurl(p), SubstituteName(f, p.name), orgBranch.value, priority) in r
    ensures orgBranch.None? ==> forall t :: t in r ==> t.purl == p
  {
    if paths == [] then []
    else
      var f := SubstituteName(paths[0], p.name);
      var here := [ProbeTarget(p, f, branch, priority)]
        + (if orgBranch.Some? then [ProbeTarget(OrgPurl(p), f, orgBranch.value, priority)] else []);
      var rest := Targets(paths[1..], p, branch, orgBranch, priority);
      assert forall g :: g in paths ==> g == paths[0] || g in paths[1..];
      assert forall t :: t in here + rest <==> t in here || t in rest;
      here + rest
  }

  /** Every probe target names one of the path set's files, after substitution. */
  lemma {:induction false} TargetsNameKnownFiles(paths: seq<string>, p: Purl, branch: string, orgBranch: Option<string>, priority: int, t: ProbeTarget)
    requires t in Targets(paths, p, branch, orgBranch, priority)
    ensures exists f :: f in paths && t.filename == SubstituteName(f, p.name)
    decreases |paths|
  {
    var f := SubstituteName(paths[0], p.name);
    var here := [ProbeTarget(p, f, branch, priority)]
      + (if orgBranch.Some? then [ProbeTarget(OrgPurl(p), f, orgBranch.value, priority)] else []);
    var rest := Targets(paths[1..], p, branch, orgBranch, priority);
    assert Targets(paths, p, branch, orgBranch, priority) == here + rest;
    if t in here {
      assert paths[0] in paths;
    } else {
      TargetsNameKnownFiles(paths[1..], p, branch, orgBranch, priority, t);
      var g :| g in paths[1..] && t.filename == SubstituteName(g, p.name);
      assert g in paths;
    }
  }

  /** `_args` once both path sets are in it. */
  function ProbeList(p: Purl, branch: string, orgBranch: Option<string>): (r: seq<ProbeTarget>)
    ensures |r| == (|SecurityMdPaths| + |OtherFilePaths|) * (if orgBranch.Some? then 2 else 1)
    ensures forall t :: t in r ==> t.priority in {SecurityMdPriority, OtherFilePriority}
  {
    Targets(SecurityMdPaths, p, branch, orgBranch, SecurityMdPriority)
    + Targets(OtherFilePaths, p, branch, orgBranch, OtherFilePriority)
  }

  /** What the two thread pools are handed: the security set at line 176, then the whole
      list again at line 185, so each security probe is dispatched twice. */
  function Dispatched(p: Purl, branch: string, orgBranch: Option<string>): (r: seq<ProbeTarget>)
    ensures |r| == (2 * |SecurityMdPaths| + |OtherFilePaths|) * (if orgBranch.Some? then 2 else 1)
    ensures forall t :: t in r <==> t in ProbeList(p, branch, orgBranch)
  {
    var security := Targets(SecurityMdPaths, p, branch, orgBranch, SecurityMdPriority);
    var all := ProbeList(p, branch, orgBranch);
    assert forall t :: t in security ==> t in all;
    security + all
  }

  /** Each security-policy probe is handed to the pools at least twice. */
  lemma SecurityProbesDispatchedTwice(p: Purl, branch: string, orgBranch: Option<string>, t: ProbeTarget)
    requires t in Targets(SecurityMdPaths, p, branch, orgBranch, SecurityMdPriority)
    ensures multiset(Dispatched(p, branch, orgBranch))[t] >= 2
  {
    var security := Targets(SecurityMdPaths, p, branch, orgBranch, SecurityMdPriority);
    var all := ProbeList(p, branch, orgBranch);
    assert Dispatched(p, branch, orgBranch) == security + all;
    assert multiset(security + all) == multiset(security) + multiset(all);
    assert t in all;
  }

  // ----- check_github_security_md -----

  const RawPrefix: string := "https://raw.githubusercontent.com/"

  /** The raw file a probe fetches, or None where the guards return early. Past the
      prefix, the path reads namespace, name and branch, then the file's own path. */
  function SecurityMdUrl(purl: Option<Purl>, filename: string, branch: string): (r: Option<string>)
    ensures r.None? <==> purl.None? || purl.value.kind != "github" || !Truthy(purl.value.namespace)
    ensures r.Some? ==> StartsWith(r.value, RawPrefix) && EndsWith(r.value, "/" + filename)
    ensures r.Some? && '/' !in purl.value.namespace.value && '/' !in purl.value.name && '/' !in branch ==>
      Split(r.value[|RawPrefix|..], "/") == [purl.value.namespace.value, purl.value.name, branch] + Split(filename, "/")
  {
    if purl.None? then None
    else if purl.value.kind != "github" then None
    else if !Truthy(purl.value.namespace) then None
    else
      var ns := purl.value.namespace.value;
      var path := ns + "/" + purl.value.name + "/" + branch + "/" + filename;
      var u := RawPrefix + path;
      assert u[..|RawPrefix|] == RawPrefix && u[|RawPrefix|..] == path;
      assert u[|u| - |filename| - 1..] == "/" + filename;
      assert '/' !in ns && '/' !in purl.value.name && '/' !in branch ==>
        Split(path, "/") == [ns, purl.value.name, branch] + Split(filename, "/") by {
        if '/' !in ns && '/' !in purl.value.name && '/' !in branch {
          PathSegments(ns, purl.value.name, branch, filename);
        }
      }
      Some(u)
  }

  /** Three slash-free segments and a path, joined by '/', split back apart. */
  lemma PathSegments(a: string, b: string, c: string, rest: string)
    requires '/' !in a && '/' !in b && '/' !in c
    ensures Split(a + "/" + b + "/" + c + "/" + rest, "/") == [a, b, c] + Split(rest, "/")
  {
    SplitThreeSegments(a, b, c, rest, '/');
  }

  /** `check_github_security_md`: an ok response is searched at the caller's priority. */
  function CheckGithubSecurityMd(purl: Option<Purl>, filename: string, branch: string, priority: int,
                                 fetch: string -> Option<string>, x: Extractors, cs: seq<Contact>): (r: seq<Contact>)
    ensures SecurityMdUrl(purl, filename, branch).None? ==> r == cs
    ensures UniqueKeys(cs) ==> UniqueKeys(r)
    ensures match SecurityMdUrl(purl, filename, branch)
      case None => true
      case Some(u) =>
        (fetch(u).None? ==> r == cs)
        && (fetch(u).Some? ==> Keys(r) == Keys(cs) + Keys(Discovered(x, u, fetch(u).value, priority)))
  {
    match SecurityMdUrl(purl, filename, branch)
    case None => cs
    case Some(u) =>
      match fetch(u)
      case None => cs
      case Some(body) => FindContacts(x, u, body, priority, cs)
  }

  /** The argument tuple `_check_github_security_md` unpacks; a short tuple leaves the
      branch or the priority absent. */
  datatype ProbeArgs = ProbeArgs(purl: Option<Purl>, filename: string, branch: Option<string>, priority: Option<int>)

  /** `_check_github_security_md`: an empty tuple does nothing; a missing branch is
      "master" and a missing priority is the default 25. */
  function CheckFromArgs(args: Option<ProbeArgs>, fetch: string -> Option<string>, x: Extractors, cs: seq<Contact>): (r: seq<Contact>)
    ensures args.None? ==> r == cs
    ensures args.Some? ==> r == CheckGithubSecurityMd(args.value.purl, args.value.filename,
      if args.value.branch.Some? then args.value.branch.value else DefaultBranch,
      if args.value.priority.Some? then args.value.priority.value else DefaultPriority, fetch, x, cs)
  {
    match args
    case None => cs
    case Some(a) =>
      var branch := match a.branch case Some(b) => b case None => DefaultBranch;
      var priority := match a.priority case Some(q) => q case None => DefaultPriority;
      CheckGithubSecurityMd(a.purl, a.filename, branch, priority, fetch, x, cs)
  }

  /** The contact keys one probe finds on its own: those of the fetched file's
      contacts, nothing when the URL guards return early or the fetch fails. */
  function ProbeFinds(t: ProbeTarget, fetch: string -> Option<string>, x: Extractors): set<(string, string)> {
    match SecurityMdUrl(Some(t.purl), t.filename, t.branch)
    case None => {}
    case Some(u) =>
      match fetch(u)
      case None => {}
      case Some(body) => Keys(Discovered(x, u, body, t.priority))
  }

  /** The keys found by a set of probes, regardless of their order or repetition. */
  function ProbeKeys(targets: seq<ProbeTarget>, fetch: string -> Option<string>, x: Extractors): set<(string, string)> {
    set t, k | t in targets && k in ProbeFinds(t, fetch, x) :: k
  }

  lemma ProbeKeysCons(targets: seq<ProbeTarget>, fetch: string -> Option<string>, x: Extractors)
    requires targets != []
    ensures ProbeKeys(targets, fetch, x) == ProbeFinds(targets[0], fetch, x) + ProbeKeys(targets[1..], fetch, x)
  {
    assert forall t :: t in targets <==> t == targets[0] || t in targets[1..];
  }

  /** The dispatched probes, applied one after another: the keys gained are exactly
      the keys the probes find one by one. */
  function RunProbes(targets: seq<ProbeTarget>, fetch: string -> Option<string>, x: Extractors, cs: seq<Contact>): (r: seq<Contact>)
    ensures UniqueKeys(cs) ==> UniqueKeys(r)
    ensures Keys(r) == Keys(cs) + ProbeKeys(targets, fetch, x)
    decreases |targets|
  {
    if targets == [] then cs
    else
      var t := targets[0];
      var cs1 := CheckFromArgs(Some(ProbeArgs(Some(t.purl), t.filename, Some(t.branch), Some(t.priority))), fetch, x, cs);
      assert Keys(cs1) == Keys(cs) + ProbeFinds(t, fetch, x);
      ProbeKeysCons(targets, fetch, x);
      RunProbes(targets[1..], fetch, x, cs1)
  }

  /** Which keys the probes find does not depend on the order the pool runs them in,
      nor on how often each is dispatched. */
  lemma RunProbesOrderFree(a: seq<ProbeTarget>, b: seq<ProbeTarget>, fetch: string -> Option<string>, x: Extractors, cs: seq<Contact>)
    requires forall t :: t in a <==> t in b
    ensures Keys(RunProbes(a, fetch, x, cs)) == Keys(RunProbes(b, fetch, x, cs))
  {
  }

  /** The duplicate dispatch of the security probes finds the same keys as running each
      probe of the list once. */
  lemma DispatchedFindsProbeListKeys(p: Purl, branch: string, orgBranch: Option<string>,
                                     fetch: string -> Option<string>, x: Extractors, cs: seq<Contact>)
    ensures Keys(RunProbes(Dispatched(p, branch, orgBranch), fetch, x, cs))
         == Keys(RunProbes(ProbeList(p, branch, orgBranch), fetch, x, cs))
  {
    RunProbesOrderFree(Dispatched(p, branch, orgBranch), ProbeList(p, branch, orgBranch), fetch, x, cs);
  }

  // ----- code search -----

  /** One match of the code-search e-mail pattern: the whole match and its one
      capture group, the separator. */
  datatype EmailMatch = EmailMatch(whole: string, group: string)

  datatype SearchFile = SearchFile(url: string, matches: seq<EmailMatch>)

  /** The loop as written: the counter is decremented before it is compared, so a budget
      of `left` scans `left - 1` files. */
  function ScanAsWritten(files: seq<SearchFile>, left: int): (r: seq<SearchFile>)
    requires left >= 1
    ensures r == files[..Min(|files|, left - 1)]
    decreases |files|
  {
    if files == [] then []
    else if left - 1 == 0 then []
    else [files[0]] + ScanAsWritten(files[1..], left - 1)
  }

  /** The loop as intended: a budget of `left` scans `left` files. */
  function Scan(files: seq<SearchFile>, left: nat): (r: seq<SearchFile>)
    ensures r == files[..Min(|files|, left)]
    decreases |files|
  {
    if files == [] || left == 0 then []
    else [files[0]] + Scan(files[1..], left - 1)
  }

  /** `MAX_CONTENT_SEARCH_FILES` files get only 29 scans as written. */
  lemma ScanCapCounterexample(files: seq<SearchFile>)
    requires |files| == MaxContentSearchFiles
    ensures |ScanAsWritten(files, MaxContentSearchFiles)| == MaxContentSearchFiles - 1
    ensures Scan(files, MaxContentSearchFiles) == files
  {
  }

  /** One e-mail contact per distinct value, sourced from the file's URL. */
  function ValueContacts(url: string, values: seq<string>): (r: seq<Contact>)
    ensures |r| == |values|
    ensures forall i :: 0 <= i < |values| ==> r[i] == Contact(SearchHitPriority, "email", values[i], Some(url), None)
  {
    seq(|values|, i requires 0 <= i < |values| => Contact(SearchHitPriority, "email", values[i], Some(url), None))
  }

  function MatchValues(matches: seq<EmailMatch>, wholeMatch: bool): (r: seq<string>)
    ensures |r| == |matches|
    ensures forall i :: 0 <= i < |matches| ==> r[i] == (if wholeMatch then matches[i].whole else matches[i].group)
  {
    seq(|matches|, i requires 0 <= i < |matches| => if wholeMatch then matches[i].whole else matches[i].group)
  }

  /** The value `re.findall` yields for one match. */
  function MatchValue(m: EmailMatch, wholeMatch: bool): string {
    if wholeMatch then m.whole else m.group
  }

  /** The contact one match of a file yields. */
  function HitContact(f: SearchFile, m: EmailMatch, wholeMatch: bool): Contact {
    Contact(SearchHitPriority, "email", MatchValue(m, wholeMatch), Some(f.url), None)
  }

  /** The contacts of the scanned files: `set(re.findall(...))` per file. `wholeMatch`
      chooses between the whole match and what `re.findall` returns for a pattern
      with one group, the group. Every contact comes from a match, and every match
      of every scanned file gives its contact. */
  function HitContacts(files: seq<SearchFile>, wholeMatch: bool): (r: seq<Contact>)
    ensures forall c :: c in r ==> exists f, m :: f in files && m in f.matches && c == HitContact(f, m, wholeMatch)
    ensures forall f, m :: f in files && m in f.matches ==> HitContact(f, m, wholeMatch) in r
  {
    if files == [] then []
    else
      var f := files[0];
      var vals := MatchValues(f.matches, wholeMatch);
      var d := Dedup(vals);
      var here := ValueContacts(f.url, d);
      var rest := HitContacts(files[1..], wholeMatch);
      assert forall c :: c in here ==> exists m :: m in f.matches && c == HitContact(f, m, wholeMatch) by {
        forall c | c in here ensures exists m :: m in f.matches && c == HitContact(f, m, wholeMatch) {
          var i :| 0 <= i < |here| && here[i] == c;
          assert d[i] in vals;
          var j :| 0 <= j < |vals| && vals[j] == d[i];
          assert f.matches[j] in f.matches && c == HitContact(f, f.matches[j], wholeMatch);
        }
      }
      assert forall m :: m in f.matches ==> HitContact(f, m, wholeMatch) in here by {
        forall m | m in f.matches ensures HitContact(f, m, wholeMatch) in here {
          var j :| 0 <= j < |f.matches| && f.matches[j] == m;
          assert vals[j] in d;
          var i :| 0 <= i < |d| && d[i] == vals[j];
          assert here[i] == HitContact(f, m, wholeMatch);
        }
      }
      assert f in files;
      assert forall g :: g in files ==> g == f || g in files[1..];
      here + rest
  }

  /** The files the search loop reads: 29 as written, 30 as intended. */
  function Scanned(prog: Program, files: seq<SearchFile>): (r: seq<SearchFile>)
    ensures r == files[..Min(|files|, if prog.AsWritten? then MaxContentSearchFiles - 1 else MaxContentSearchFiles)]
  {
    if prog.AsWritten? then ScanAsWritten(files, MaxContentSearchFiles) else Scan(files, MaxContentSearchFiles)
  }

  /** The code-search contacts as written: the first 29 files, separator values. */
  function SearchContactsAsWritten(files: seq<SearchFile>): (r: seq<Contact>)
    ensures forall c :: c in r ==>
      exists f, m :: f in files[..Min(|files|, MaxContentSearchFiles - 1)] && m in f.matches
        && c == Contact(SearchHitPriority, "email", m.group, Some(f.url), None)
    ensures forall f, m :: f in files[..Min(|files|, MaxContentSearchFiles - 1)] && m in f.matches ==>
      Contact(SearchHitPriority, "email", m.group, Some(f.url), None) in r
  {
    HitContacts(Scanned(AsWritten, files), false)
  }

  /** The code-search contacts as intended: the first 30 files, whole addresses. */
  function SearchContacts(files: seq<SearchFile>): (r: seq<Contact>)
    ensures forall c :: c in r ==>
      exists f, m :: f in files[..Min(|files|, MaxContentSearchFiles)] && m in f.matches
        && c == Contact(SearchHitPriority, "email", m.whole, Some(f.url), None)
    ensures forall f, m :: f in files[..Min(|files|, MaxContentSearchFiles)] && m in f.matches ==>
      Contact(SearchHitPriority, "email", m.whole, Some(f.url), None) in r
  {
    HitContacts(Scanned(Intended, files), true)
  }

  /** The code-search contacts of a reading of the program. */
  function SearchHits(prog: Program, files: seq<SearchFile>): seq<Contact> {
    if prog.AsWritten? then SearchContactsAsWritten(files) else SearchContacts(files)
  }

  /** As written, every contact value is a separator when the pattern's group is. */
  lemma SearchValuesAreSeparators(files: seq<SearchFile>)
    requires forall f, m :: f in files && m in f.matches ==> m.group in {"@", "[at]"}
    ensures forall c :: c in SearchContactsAsWritten(files) ==> c.value in {"@", "[at]"}
  {
    forall c | c in SearchContactsAsWritten(files) ensures c.value in {"@", "[at]"} {
      var f, m :| f in files[..Min(|files|, MaxContentSearchFiles - 1)] && m in f.matches
        && c == Contact(SearchHitPriority, "email", m.group, Some(f.url), None);
      assert f in files;
    }
  }

  /** One file with one match: as written its contact is the group, as intended the
      whole match. */
  lemma SingleMatchSearch(url: string, m: EmailMatch)
    ensures SearchContactsAsWritten([SearchFile(url, [m])]) == [Contact(SearchHitPriority, "email", m.group, Some(url), None)]
    ensures SearchContacts([SearchFile(url, [m])]) == [Contact(SearchHitPriority, "email", m.whole, Some(url), None)]
  {
    var files := [SearchFile(url, [m])];
    assert ScanAsWritten(files, MaxContentSearchFiles) == files;
    assert Scan(files, MaxContentSearchFiles) == files;
    SingleFileHits(url, m, false);
    SingleFileHits(url, m, true);
  }

  lemma SingleFileHits(url: string, m: EmailMatch, wholeMatch: bool)
    ensures HitContacts([SearchFile(url, [m])], wholeMatch)
         == [Contact(SearchHitPriority, "email", if wholeMatch then m.whole else m.group, Some(url), None)]
  {
    var files := [SearchFile(url, [m])];
    var vals := MatchValues(files[0].matches, wholeMatch);
    assert vals == [if wholeMatch then m.whole else m.group];
    assert Dedup(vals) == vals by {
      assert vals[..0] == [];
    }
    assert files[1..] == [];
  }

  /** A file disclosing security@acme.dev yields the contact "@" as written. */
  lemma SearchAsWrittenLosesAddress()
    ensures SearchContactsAsWritten([SearchFile("https://api.github.com/x", [EmailMatch("security@acme.dev", "@")])])
         == [Contact(SearchHitPriority, "email", "@", Some("https://api.github.com/x"), None)]
    ensures SearchContacts([SearchFile("https://api.github.com/x", [EmailMatch("security@acme.dev", "@")])])
         == [Contact(SearchHitPriority, "email", "security@acme.dev", Some("https://api.github.com/x"), None)]
  {
    SingleMatchSearch("https://api.github.com/x", EmailMatch("security@acme.dev", "@"));
  }

  // ----- mergers of closed pull requests -----

  /** The pull loop as written: it stops only once more than 20 pulls were counted, so
      from `checked` it examines up to `21 - checked` pulls. */
  function ExamineAsWritten(pulls: seq<Option<string>>, checked: nat): (r: seq<Option<string>>)
    requires checked <= MaxPullsToCheck + 1
    ensures r == pulls[..Min(|pulls|, MaxPullsToCheck + 1 - checked)]
    decreases |pulls|
  {
    if pulls == [] then []
    else if checked > MaxPullsToCheck then []
    else [pulls[0]] + ExamineAsWritten(pulls[1..], checked + 1)
  }

  /** The pull loop as intended: at most `MAX_PULLS_TO_CHECK` pulls. */
  function Examine(pulls: seq<Option<string>>, checked: nat): (r: seq<Option<string>>)
    requires checked <= MaxPullsToCheck
    ensures r == pulls[..Min(|pulls|, MaxPullsToCheck - checked)]
    decreases |pulls|
  {
    if pulls == [] then []
    else if checked >= MaxPullsToCheck then []
    else [pulls[0]] + Examine(pulls[1..], checked + 1)
  }

  /** Twenty-one pulls are all examined as written. */
  lemma PullCapCounterexample(pulls: seq<Option<string>>)
    requires |pulls| == MaxPullsToCheck + 1
    ensures ExamineAsWritten(pulls, 0) == pulls
    ensures |Examine(pulls, 0)| == MaxPullsToCheck
  {
  }

  /** The logins of the examined pulls' mergers, in order. */
  function MergedLogins(examined: seq<Option<string>>): (r: seq<string>)
    ensures forall l :: l in r <==> Some(l) in examined
  {
    if examined == [] then []
    else
      var rest := MergedLogins(examined[1..]);
      assert forall o :: o in examined <==> o == examined[0] || o in examined[1..];
      match examined[0]
      case None => rest
      case Some(l) => [l] + rest
  }

  /** `merged_by_people`: the distinct logins of the examined pulls' mergers. */
  function Mergers(examined: seq<Option<string>>): (r: seq<string>)
    ensures Distinct(r)
    ensures forall l :: l in r <==> Some(l) in examined
  {
    Dedup(MergedLogins(examined))
  }

  function MergerContact(login: string, email: string): Contact {
    Contact(MergerPriority, "email", email, Some("Pull requests merged by " + login), Some(login))
  }

  /** One contact per merger whose public e-mail is set. */
  function MergerContacts(mergers: seq<string>, userEmail: string -> Option<string>): (r: seq<Contact>)
    ensures forall c :: c in r ==> exists l :: l in mergers && Truthy(userEmail(l)) && c == MergerContact(l, userEmail(l).value)
    ensures forall l :: l in mergers && Truthy(userEmail(l)) ==> MergerContact(l, userEmail(l).value) in r
  {
    if mergers == [] then []
    else
      var l := mergers[0];
      var rest := MergerContacts(mergers[1..], userEmail);
      assert forall m :: m in mergers <==> m == l || m in mergers[1..];
      if Truthy(userEmail(l)) then [MergerContact(l, userEmail(l).value)] + rest else rest
  }

  // ----- analyze -----

  /** The call of `analyze` past the repository lookup that raises, if any. The
      exception ends the analysis; what was added before it stays in the context. */
  datatype Failure =
    /** A `requests.get` or `res.json()` of the private vulnerability reporting check. */
    | PvrRequestFails
    /** The code search, its iteration or a file's decoding, after `filesRead` files. */
    | CodeSearchFails(filesRead: nat)
    /** `get_pulls`, its iteration or a `get_user`, after `usersRead` mergers were looked up. */
    | MergerLookupFails(usersRead: nat)

  /** Everything the collector learns from outside. */
  datatype Remote = Remote(
    /** `get_repo`, or None when it raises. */
    repo: Option<Repository>,
    /** The REST answer about private vulnerability reporting. */
    pvrStatus: int, pvrEnabled: bool,
    /** The body of the advisories page. */
    advisoriesPage: string,
    /** The default branch of `{namespace}/.github`, None when it does not exist. */
    orgBranch: Option<string>,
    /** Ok response bodies by URL. */
    fetch: string -> Option<string>,
    /** `analyze_securityinsights(purl, context)`, whose module is not part of this model. */
    insights: Context -> Outcome,
    searchFiles: seq<SearchFile>,
    /** Closed pulls, most recently updated first: the merger's login, if merged. */
    pulls: seq<Option<string>>,
    userEmail: string -> Option<string>,
    failure: Option<Failure>)

  function OwnerContact(repo: Repository): Contact
    requires Truthy(repo.ownerEmail)
  {
    Contact(OwnerEmailPriority, "email", repo.ownerEmail.value, Some("https://github.com/" + repo.ownerLogin), None)
  }

  function PvrOf(repo: Repository, remote: Remote): PvrCheck {
    CheckPvr(repo.ownerLogin, repo.name, remote.pvrStatus, remote.pvrEnabled, remote.advisoriesPage)
  }

  /** The owner's public e-mail address, when it is set. */
  function WithOwner(repo: Repository, cs: seq<Contact>): (r: seq<Contact>)
    ensures UniqueKeys(cs) ==> UniqueKeys(r)
    ensures Truthy(repo.ownerEmail) ==> Keys(r) == Keys(cs) + {("email", repo.ownerEmail.value)}
    ensures !Truthy(repo.ownerEmail) ==> r == cs
  {
    if Truthy(repo.ownerEmail) then AddContact(cs, OwnerContact(repo)) else cs
  }

  /** The private vulnerability reporting form, when the check finds it. */
  function WithForm(repo: Repository, remote: Remote, cs: seq<Contact>): (r: seq<Contact>)
    ensures UniqueKeys(cs) ==> UniqueKeys(r)
    ensures PvrOf(repo, remote).contact.Some? ==>
      Keys(r) == Keys(cs) + {("github_pvr", AdvisoryFormUrl(repo.ownerLogin, repo.name))}
    ensures PvrOf(repo, remote).contact.None? ==> r == cs
  {
    var pvr := PvrOf(repo, remote);
    if pvr.contact.Some? then AddContact(cs, pvr.contact.value) else cs
  }

  /** The mergers whose e-mail addresses are looked up: distinct, from the pulls the
      loop examines. */
  function PullMergers(prog: Program, pulls: seq<Option<string>>): seq<string> {
    Mergers(if prog.AsWritten? then ExamineAsWritten(pulls, 0) else Examine(pulls, 0))
  }

  /** The contacts of the code search and the pull mergers, ending early where
      `failure` says. `prog` chooses the loops as written or as intended. */
  function SearchAndMergers(prog: Program, remote: Remote, ctx: Context): (r: Outcome)
    ensures r.ctx == ctx.(contacts := r.ctx.contacts)
    ensures UniqueKeys(ctx.contacts) ==> UniqueKeys(r.ctx.contacts)
    ensures Keys(ctx.contacts) <= Keys(r.ctx.contacts)
    ensures r.Raised? <==> remote.failure.Some? && remote.failure != Some(PvrRequestFails)
    ensures remote.failure.Some? && remote.failure.value.CodeSearchFails? ==>
      var scanned := Scanned(prog, remote.searchFiles);
      r.ctx.contacts == AddAll(ctx.contacts, HitContacts(scanned[..Min(|scanned|, remote.failure.value.filesRead)], prog.Intended?))
    ensures remote.failure.None? || remote.failure == Some(PvrRequestFails) || remote.failure.value.MergerLookupFails? ==>
      Keys(r.ctx.contacts) >= Keys(ctx.contacts) + Keys(SearchHits(prog, remote.searchFiles))
    ensures remote.failure.None? || remote.failure == Some(PvrRequestFails) ==>
      r.ctx.contacts == AddAll(AddAll(ctx.contacts, SearchHits(prog, remote.searchFiles)),
                              MergerContacts(PullMergers(prog, remote.pulls), remote.userEmail))
  {
    var hits := SearchHits(prog, remote.searchFiles);
    match remote.failure
    case Some(CodeSearchFails(k)) =>
      var scanned := Scanned(prog, remote.searchFiles);
      Raised(ctx.(contacts := AddAll(ctx.contacts, HitContacts(scanned[..Min(|scanned|, k)], prog.Intended?))))
    case Some(MergerLookupFails(k)) =>
      var mergers := PullMergers(prog, remote.pulls);
      var cs := AddAll(ctx.contacts, hits);
      Raised(ctx.(contacts := AddAll(cs, MergerContacts(mergers[..Min(|mergers|, k)], remote.userEmail))))
    case _ =>
      var cs := AddAll(ctx.contacts, hits);
      Done(ctx.(contacts := AddAll(cs, MergerContacts(PullMergers(prog, remote.pulls), remote.userEmail))))
  }

  /** The analysis of a repository under its own name, in the order the collector
      works: owner e-mail, reporting form, probes, security insights, code search,
      pull mergers. `prog` chooses the search and pull loops as written or as
      intended. */
  function Collect(prog: Program, p: Purl, repo: Repository, remote: Remote, x: Extractors, ctx: Context): (r: Outcome)
    ensures remote.failure == Some(PvrRequestFails) ==> r == Raised(ctx.(contacts := WithOwner(repo, ctx.contacts)))
    ensures OnlyAdds(remote.insights) ==>
      && r.ctx.packageUrl == ctx.packageUrl
      && (UniqueKeys(ctx.contacts) ==> UniqueKeys(r.ctx.contacts))
      && Keys(ctx.contacts) <= Keys(r.ctx.contacts)
      && (Truthy(repo.ownerEmail) ==> ("email", repo.ownerEmail.value) in Keys(r.ctx.contacts))
    ensures OnlyAdds(remote.insights) && remote.failure != Some(PvrRequestFails) ==>
      && (PvrOf(repo, remote).contact.Some? ==> ("github_pvr", AdvisoryFormUrl(repo.ownerLogin, repo.name)) in Keys(r.ctx.contacts))
      && ProbeKeys(Dispatched(p, repo.defaultBranch, remote.orgBranch), remote.fetch, x) <= Keys(r.ctx.contacts)
    ensures r.Done? ==> remote.failure.None?
  {
    var cs1 := WithOwner(repo, ctx.contacts);
    if remote.failure == Some(PvrRequestFails) then Raised(ctx.(contacts := cs1))
    else
      var cs2 := WithForm(repo, remote, cs1);
      var cs3 := RunProbes(Dispatched(p, repo.defaultBranch, remote.orgBranch), remote.fetch, x, cs2);
      match remote.insights(ctx.(contacts := cs3))
      case Raised(c) => Raised(c)
      case Done(c) => SearchAndMergers(prog, remote, c)
  }

  /** `analyze`: nothing happens without a purl and a token; a repository that cannot
      be fetched or was renamed ends the analysis normally; a purl without a namespace
      whose repository was fetched raises at the rename test, where `None.lower()` fails;
      otherwise the repository is searched, and the contacts only grow and keep unique keys as long as the security
      insights collector writes only through `add_contact`. */
  function Analyze(prog: Program, purl: Option<Purl>, token: Option<string>, remote: Remote, x: Extractors,
                   normalize: Purl -> Purl, ctx: Context): (r: Outcome)
    ensures purl.None? || !Truthy(token) ==> r == Done(ctx)
    ensures purl.None? || remote.repo.None? ==> r.Done?
    ensures purl.Some? && remote.repo.Some? && purl.value.namespace.Some? && Renamed(purl.value, remote.repo.value)
      ==> r.Done?
    ensures purl.Some? && Truthy(token) && remote.repo.Some? && purl.value.namespace.None? ==>
      r == Raised(ctx.(relatedPurls := ctx.relatedPurls + [normalize(purl.value)],
                       notes := ctx.notes + StateNotes(purl.value, remote.repo.value)))
    ensures (purl.Some? && Truthy(token) && remote.repo.Some? && !Renamed(purl.value, remote.repo.value)
             && remote.failure.Some?) ==> r.Raised?
    ensures OnlyAdds(remote.insights) ==>
      && r.ctx.packageUrl == ctx.packageUrl
      && (UniqueKeys(ctx.contacts) ==> UniqueKeys(r.ctx.contacts))
      && Keys(ctx.contacts) <= Keys(r.ctx.contacts)
  {
    if purl.None? || !Truthy(token) then Done(ctx)
    else
      var p := purl.value;
      var ctx1 := ctx.(relatedPurls := ctx.relatedPurls + [normalize(p)]);
      match remote.repo
      case None => Done(ctx1)
      case Some(repo) =>
        var ctx2 := ctx1.(notes := ctx1.notes + StateNotes(p, repo));
        if p.namespace.None? then Raised(ctx2)
        else if Renamed(p, repo) then
          Done(ctx2.(notes := ctx2.notes + [MovedNote(p, repo)],
                     relatedPurls := ctx2.relatedPurls + [GitHubPurl(repo.ownerLogin, repo.name)]))
        else
          Collect(prog, p, repo, remote, x, ctx2)
  }

  /** Past the gate, a repository that cannot be fetched leaves only the purl's
      normalised form recorded. */
  lemma AnalyzeMissingRepository(prog: Program, purl: Option<Purl>, token: Option<string>, remote: Remote, x: Extractors,
                                 normalize: Purl -> Purl, ctx: Context)
    requires purl.Some? && Truthy(token) && remote.repo.None?
    ensures Analyze(prog, purl, token, remote, x, normalize, ctx) == Done(ctx.(relatedPurls := ctx.relatedPurls + [normalize(purl.value)]))
  {
  }

  /** Past the gate, a purl without a namespace whose repository was fetched raises
      after the state notes, before any move note or contact. */
  lemma AnalyzeWithoutNamespace(prog: Program, purl: Option<Purl>, token: Option<string>, remote: Remote, x: Extractors,
                                normalize: Purl -> Purl, ctx: Context)
    requires purl.Some? && Truthy(token) && remote.repo.Some? && purl.value.namespace.None?
    ensures var r := Analyze(prog, purl, token, remote, x, normalize, ctx);
      && r.Raised?
      && r.ctx.contacts == ctx.contacts
      && r.ctx.relatedPurls == ctx.relatedPurls + [normalize(purl.value)]
      && r.ctx.notes == ctx.notes + StateNotes(purl.value, remote.repo.value)
  {
  }

  /** Past the gate, a renamed repository is recorded after the purl's normalised form,
      with the state notes and the "moved" note, and no contact is added. */
  lemma AnalyzeRenamed(prog: Program, purl: Option<Purl>, token: Option<string>, remote: Remote, x: Extractors,
                       normalize: Purl -> Purl, ctx: Context)
    requires purl.Some? && Truthy(token) && remote.repo.Some? && purl.value.namespace.Some?
    requires Renamed(purl.value, remote.repo.value)
    ensures var r := Analyze(prog, purl, token, remote, x, normalize, ctx);
      && r.Done?
      && r.ctx.contacts == ctx.contacts
      && r.ctx.relatedPurls == ctx.relatedPurls + [normalize(purl.value), GitHubPurl(remote.repo.value.ownerLogin, remote.repo.value.name)]
      && r.ctx.notes == ctx.notes + StateNotes(purl.value, remote.repo.value) + [MovedNote(purl.value, remote.repo.value)]
  {
    var p := purl.value;
    var repo := remote.repo.value;
    assert ctx.relatedPurls + [normalize(p)] + [GitHubPurl(repo.ownerLogin, repo.name)]
        == ctx.relatedPurls + [normalize(p), GitHubPurl(repo.ownerLogin, repo.name)];
  }

  /** Past the gate, a repository under its own name adds its state notes after the
      purl's normalised form and is searched for contacts. */
  lemma AnalyzeSameName(prog: Program, purl: Option<Purl>, token: Option<string>, remote: Remote, x: Extractors,
                        normalize: Purl -> Purl, ctx: Context)
    requires purl.Some? && Truthy(token) && remote.repo.Some? && purl.value.namespace.Some?
    requires !Renamed(purl.value, remote.repo.value)
    ensures Analyze(prog, purl, token, remote, x, normalize, ctx)
      == Collect(prog, purl.value, remote.repo.value, remote, x,
                 ctx.(relatedPurls := ctx.relatedPurls + [normalize(purl.value)],
                      notes := ctx.notes + StateNotes(purl.value, remote.repo.value)))
  {
  }
}
