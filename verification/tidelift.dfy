/** The Tidelift collector (disclosurecheck/collectors/tidelift.py). */
module Tidelift {
  import opened Base
  import opened Text
  import opened Ordering
  import opened PackageUrls
  import opened Contacts
  import opened AnalysisContext
  import Searchers

  const SubscriptionPriority: int := 5
  const TideliftContactName: string := "Tidelift Security"
  const LockFiles: seq<string> := ["package-lock.json", "yarn.lock"]

  /** The character the namespace contributes to the slug in place of `c`. */
  function SlugChar(c: char): char {
    if c == '@' then '.' else c
  }

  /** The package part of the subscription URL: the namespace with every '@'
      written as '.', a dash, and the name; just the name without a namespace. */
  function Slug(p: Purl): (r: string)
    ensures !Truthy(p.namespace) ==> r == p.name
    ensures EndsWith(r, p.name)
    ensures Truthy(p.namespace) ==>
      && |r| == |p.namespace.value| + 1 + |p.name|
      && (forall i :: 0 <= i < |p.namespace.value| ==> r[i] == SlugChar(p.namespace.value[i]))
      && r[|p.namespace.value|] == '-'
      && r[|p.namespace.value| + 1..] == p.name
  {
    if Truthy(p.namespace) then
      var ns := Replace(p.namespace.value, "@", ".");
      ReplaceAtCharwise(p.namespace.value);
      var r := ns + "-" + p.name;
      assert r[..|ns|] == ns;
      assert r[|ns| + 1..] == p.name;
      r
    else p.name
  }

  /** `replace("@", ".")` rewrites character by character. */
  lemma {:induction false} ReplaceAtCharwise(s: string)
    ensures |Replace(s, "@", ".")| == |s|
    ensures forall i :: 0 <= i < |s| ==> Replace(s, "@", ".")[i] == SlugChar(s[i])
    decreases |s|
  {
    if |s| >= 1 {
      ReplaceAtCharwise(s[1..]);
      assert s[..1] == [s[0]];
      var rest := Replace(s[1..], "@", ".");
      assert Replace(s, "@", ".") == [SlugChar(s[0])] + rest;
    }
  }

  /** A namespace without '@' appears in the slug as it is. */
  lemma SlugKeepsPlainNamespace(p: Purl)
    requires Truthy(p.namespace) && '@' !in p.namespace.value
    ensures Slug(p) == p.namespace.value + "-" + p.name
  {
    var ns := p.namespace.value;
    assert forall i :: 0 <= i < |ns| ==> SlugChar(ns[i]) == ns[i] by {
      forall i | 0 <= i < |ns| ensures SlugChar(ns[i]) == ns[i] {
        assert ns[i] in ns;
      }
    }
    assert Slug(p)[..|ns|] == ns;
    assert Slug(p) == Slug(p)[..|ns|] + "-" + Slug(p)[|ns| + 1..];
  }

  function SubscriptionUrl(p: Purl): string {
    "https://tidelift.com/subscription/pkg/" + p.kind + "-" + Slug(p)
  }

  function TideliftContact(source: string): Contact {
    Contact(SubscriptionPriority, "tidelift", Searchers.TideliftAddress, Some(source), Some(TideliftContactName))
  }

  /** The names of the code-search hits, lock files excluded, in order. */
  function ReferencingFiles(names: seq<string>): (r: seq<string>)
    ensures forall n :: n in r <==> n in names && n !in LockFiles
    ensures |r| <= |names|
  {
    Filter((n: string) => n !in LockFiles, names)
  }

  /** The source recorded for the hits: their names joined by commas. */
  function HitsSource(names: seq<string>): string {
    Join(ReferencingFiles(names), ",")
  }

  /** Comma-free names can be read back from the recorded source. */
  lemma HitsSourceListsFiles(names: seq<string>)
    requires ReferencingFiles(names) != []
    requires forall n :: n in names ==> ',' !in n
    ensures Split(HitsSource(names), ",") == ReferencingFiles(names)
  {
    SplitJoin(ReferencingFiles(names), ',');
  }

  /** The call of `analyze_tidelift` that raises, if any. The exception leaves the
      function at once and keeps what was added before it. */
  datatype TideliftFailure =
    /** `requests.get` of the subscription page. */
    | SubscriptionRequestFails
    /** A call of the GitHub branch: `get_repo` failing other than with
        `UnknownObjectException`, or the code search and its iteration. */
    | GitHubBranchFails

  /** What the collector learns from outside. */
  datatype TideliftRemote = TideliftRemote(
    /** The status of the subscription page. */
    status: int,
    /** `get_repo` succeeded. */
    repoFound: bool,
    /** The names of the code-search hits for "tidelift.com". */
    hits: seq<string>,
    failure: Option<TideliftFailure>)

  /** The key every Tidelift contact has. */
  const TideliftKey: (string, string) := ("tidelift", Searchers.TideliftAddress)

  /** The GitHub branch reaches `get_repo`: a GitHub package and a token. */
  predicate ReachesGitHub(p: Purl, token: Option<string>) {
    p.kind == "github" && Truthy(token)
  }

  /** The GitHub branch finds files that reference Tidelift. */
  predicate FindsReferences(p: Purl, token: Option<string>, remote: TideliftRemote) {
    ReachesGitHub(p, token) && remote.repoFound && ReferencingFiles(remote.hits) != []
  }

  /** The analysis of a package ends with an exception. */
  predicate Raises(p: Purl, token: Option<string>, remote: TideliftRemote) {
    || remote.failure == Some(SubscriptionRequestFails)
    || (remote.failure == Some(GitHubBranchFails) && ReachesGitHub(p, token))
  }

  /** `analyze_tidelift` on a context. */
  function Analyze(purl: Option<Purl>, token: Option<string>, remote: TideliftRemote, ctx: Context): (r: Outcome)
    ensures r.ctx == ctx.(contacts := r.ctx.contacts)
    ensures purl.None? ==> r == Done(ctx)
    ensures r.Raised? <==> purl.Some? && Raises(purl.value, token, remote)
    ensures remote.failure == Some(SubscriptionRequestFails) ==> r.ctx == ctx
    ensures UniqueKeys(ctx.contacts) ==> UniqueKeys(r.ctx.contacts)
    ensures Keys(r.ctx.contacts) == Keys(ctx.contacts) || Keys(r.ctx.contacts) == Keys(ctx.contacts) + {TideliftKey}
    ensures purl.Some? && remote.failure != Some(SubscriptionRequestFails) && remote.status == 200
            ==> TideliftKey in Keys(r.ctx.contacts)
    ensures purl.Some? && r.Done? && FindsReferences(purl.value, token, remote) ==> TideliftKey in Keys(r.ctx.contacts)
    ensures purl.Some? && remote.status != 200 && !FindsReferences(purl.value, token, remote) ==> r.ctx == ctx
  {
    if purl.None? then Done(ctx)
    else if remote.failure == Some(SubscriptionRequestFails) then Raised(ctx)
    else
      var p := purl.value;
      var url := SubscriptionUrl(p);
      var cs1 := if remote.status == 200 then AddContact(ctx.contacts, TideliftContact(url)) else ctx.contacts;
      if p.kind != "github" then Done(ctx.(contacts := cs1))
      else if !Truthy(token) then Done(ctx.(contacts := cs1))
      else if remote.failure == Some(GitHubBranchFails) then Raised(ctx.(contacts := cs1))
      else if !remote.repoFound then Done(ctx.(contacts := cs1))
      else
        var files := ReferencingFiles(remote.hits);
        if files == [] then Done(ctx.(contacts := cs1))
        else
          Done(ctx.(contacts := AddContact(cs1, TideliftContact(HitsSource(remote.hits)))))
  }

  /** The contact added when there was none: its source is the subscription URL, the
      comma-joined names of the referencing files, or the two merged. */
  lemma AnalyzeNewEntry(p: Purl, token: Option<string>, remote: TideliftRemote, ctx: Context)
    requires !Raises(p, token, remote) && TideliftKey !in Keys(ctx.contacts)
    ensures
      var r := Analyze(Some(p), token, remote, ctx).ctx.contacts;
      var sub := TideliftContact(SubscriptionUrl(p));
      var hits := TideliftContact(HitsSource(remote.hits));
      var found := FindsReferences(p, token, remote);
      && (remote.status == 200 && !found ==> r == ctx.contacts + [sub])
      && (remote.status != 200 && found ==> r == ctx.contacts + [hits])
      && (remote.status == 200 && found ==> r == ctx.contacts + [Merge(sub, hits)])
  {
    if remote.status == 200 && FindsReferences(p, token, remote) {
      AnalyzeMergesEntries(p, token, remote, ctx);
    }
  }

  lemma AnalyzeMergesEntries(p: Purl, token: Option<string>, remote: TideliftRemote, ctx: Context)
    requires !Raises(p, token, remote) && TideliftKey !in Keys(ctx.contacts)
    requires remote.status == 200 && FindsReferences(p, token, remote)
    ensures Analyze(Some(p), token, remote, ctx).ctx.contacts ==
      ctx.contacts + [Merge(TideliftContact(SubscriptionUrl(p)), TideliftContact(HitsSource(remote.hits)))]
  {
    AddContactTwiceNew(ctx.contacts, TideliftContact(SubscriptionUrl(p)), TideliftContact(HitsSource(remote.hits)));
  }
}
