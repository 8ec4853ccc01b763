/** Package URLs (`packageurl.PackageURL`) as far as the program inspects them. */
module PackageUrls {
  import opened Base
  import opened Ordering

  /** `kind` is the purl's `type` (a Dafny keyword); qualifiers and subpath are not modelled. */
  datatype Purl = Purl(kind: string, namespace: Option<string>, name: string, version: Option<string>)

  function GitHubPurl(owner: string, repo: string): (p: Purl) {
    Purl("github", Some(owner), repo, None)
  }

  /** `f"{purl.namespace}"`: Python renders an absent namespace as `None`. */
  function NamespaceText(p: Purl): string {
    if p.namespace.Some? then p.namespace.value else "None"
  }

  /** `str(purl)`, without the percent-encoding the library applies. */
  function PurlString(p: Purl): (s: string)
    ensures |s| >= 4 && s[..4] == "pkg:"
  {
    "pkg:" + p.kind + "/"
    + (if Truthy(p.namespace) then p.namespace.value + "/" else "")
    + p.name
    + (if Truthy(p.version) then "@" + p.version.value else "")
  }

  /** Absent sorts before present (Python would raise a TypeError comparing None with str). */
  predicate OptionLess(a: Option<string>, b: Option<string>) {
    match (a, b)
    case (None, Some(_)) => true
    case (Some(x), Some(y)) => LexLess(x, y)
    case _ => false
  }

  /** Tuple order of the purl's fields, as `sorted` applies it to the namedtuple. */
  predicate PurlLess(a: Purl, b: Purl) {
    if a.kind != b.kind then LexLess(a.kind, b.kind)
    else if a.namespace != b.namespace then OptionLess(a.namespace, b.namespace)
    else if a.name != b.name then LexLess(a.name, b.name)
    else OptionLess(a.version, b.version)
  }

  lemma OptionLessIrreflexive(a: Option<string>)
    ensures !OptionLess(a, a)
  {
    if a.Some? {
      LexLessIrreflexive(a.value);
    }
  }

  lemma OptionLessTransitive(a: Option<string>, b: Option<string>, c: Option<string>)
    requires OptionLess(a, b) && OptionLess(b, c)
    ensures OptionLess(a, c)
  {
    if a.Some? {
      LexLessTransitive(a.value, b.value, c.value);
    }
  }

  lemma OptionLessTrichotomous(a: Option<string>, b: Option<string>)
    ensures a == b || OptionLess(a, b) || OptionLess(b, a)
  {
    if a.Some? && b.Some? {
      LexLessTrichotomous(a.value, b.value);
    }
  }

  lemma PurlLessIrreflexive(a: Purl)
    ensures !PurlLess(a, a)
  {
    OptionLessIrreflexive(a.version);
  }

  lemma PurlLessTransitive(a: Purl, b: Purl, c: Purl)
    requires PurlLess(a, b) && PurlLess(b, c)
    ensures PurlLess(a, c)
  {
    if a.kind != b.kind || b.kind != c.kind {
      if a.kind != b.kind && b.kind != c.kind {
        LexLessTransitive(a.kind, b.kind, c.kind);
      }
      if a.kind == c.kind {
        LexLessTransitive(a.kind, b.kind, c.kind);
        LexLessIrreflexive(a.kind);
      }
    } else if a.namespace != b.namespace || b.namespace != c.namespace {
      if a.namespace != b.namespace && b.namespace != c.namespace {
        OptionLessTransitive(a.namespace, b.namespace, c.namespace);
      }
      if a.namespace == c.namespace {
        OptionLessTransitive(a.namespace, b.namespace, c.namespace);
        OptionLessIrreflexive(a.namespace);
      }
    } else if a.name != b.name || b.name != c.name {
      if a.name != b.name && b.name != c.name {
        LexLessTransitive(a.name, b.name, c.name);
      }
      if a.name == c.name {
        LexLessTransitive(a.name, b.name, c.name);
        LexLessIrreflexive(a.name);
      }
    } else {
      OptionLessTransitive(a.version, b.version, c.version);
    }
  }

  lemma PurlLessTrichotomous(a: Purl, b: Purl)
    ensures a == b || PurlLess(a, b) || PurlLess(b, a)
  {
    LexLessTrichotomous(a.kind, b.kind);
    OptionLessTrichotomous(a.namespace, b.namespace);
    LexLessTrichotomous(a.name, b.name);
    OptionLessTrichotomous(a.version, b.version);
  }

  lemma PurlLessIsStrictTotalOrder()
    ensures StrictTotalOrder(PurlLess)
  {
    forall a ensures !PurlLess(a, a) {
      PurlLessIrreflexive(a);
    }
    forall a, b, c | PurlLess(a, b) && PurlLess(b, c) ensures PurlLess(a, c) {
      PurlLessTransitive(a, b, c);
    }
    forall a, b ensures a == b || PurlLess(a, b) || PurlLess(b, a) {
      PurlLessTrichotomous(a, b);
    }
  }

  /** Python's `sorted(set(purls))`. */
  function SortedPurls(xs: seq<Purl>): (r: seq<Purl>)
    ensures Sorted(PurlLess, r) && Distinct(r)
    ensures forall p :: p in r <==> p in xs
  {
    PurlLessIsStrictTotalOrder();
    SortedSet(PurlLess, xs)
  }
}
