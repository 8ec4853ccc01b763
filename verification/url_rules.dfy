/** The regular expressions of disclosurecheck/util/searchers.py, each written out as a
    string predicate. Conventions: a leading `.*` of `re.match` cannot cross a line
    break; `$` matches at the end or just before one final line break; `re.IGNORECASE`
    is ASCII case folding. */
module UrlRules {
  import opened Text

  /** A lower-case literal occurs at `i`, ignoring case. */
  predicate OccursAtIgnoringCase(s: string, lit: string, i: int) {
    0 <= i && i + |lit| <= |s| && Lower(s[i..i + |lit|]) == lit
  }

  predicate ContainsIgnoringCase(s: string, lit: string) {
    exists i | 0 <= i <= |s| - |lit| :: OccursAtIgnoringCase(s, lit, i)
  }

  /** `re.compile(r'/CHANGELOG.md$', re.IGNORECASE)`; its unescaped `.` matches any
      character except a line break. */
  predicate ChangelogRule(u: string) {
    var t := DropFinalNewline(u);
    |t| >= 13 && Lower(t[|t| - 13..|t| - 3]) == "/changelog" && t[|t| - 3] != '\n'
    && Lower(t[|t| - 2..]) == "md"
  }

  /** `re.compile(r'/(issues|releases|tags)$')`. */
  predicate ListingRule(u: string) {
    var t := DropFinalNewline(u);
    EndsWith(t, "/issues") || EndsWith(t, "/releases") || EndsWith(t, "/tags")
  }

  /** Exactly one '/', with text on both sides of it. */
  predicate OwnerSlashRepo(t: string) {
    exists k | 0 < k < |t| - 1 :: t[k] == '/' && '/' !in t[..k] && '/' !in t[k + 1..]
  }

  /** What `[^/]+/[^/]+/?$` accepts (`[^/]` also matches a line break). */
  predicate TwoSegments(r: string) {
    || OwnerSlashRepo(r)
    || (EndsWith(r, "/") && OwnerSlashRepo(r[..|r| - 1]))
    || (EndsWith(r, "/\n") && OwnerSlashRepo(r[..|r| - 2]))
  }

  /** `re.compile(r'github\.com/[^/]+/[^/]+/?$')`: a repository's home page. */
  predicate RepositoryHomeRule(u: string) {
    exists i | 0 <= i <= |u| - 11 :: OccursAt(u, "github.com/", i) && TwoSegments(u[i + 11..])
  }

  /** `re.compile(r'/license(s?)/', re.IGNORECASE)`. */
  predicate LicenseRule(u: string) {
    ContainsIgnoringCase(u, "/license/") || ContainsIgnoringCase(u, "/licenses/")
  }

  /** Some pattern of `IGNORE_URLS` is found in the URL. */
  predicate Ignored(u: string) {
    ChangelogRule(u) || ListingRule(u) || RepositoryHomeRule(u) || LicenseRule(u)
  }

  // `re.match(r".*/github\.com/([^/]+)$", u, re.IGNORECASE)`: a bare user or
  // organisation profile.
  predicate BareProfile(u: string) {
    exists i | 0 <= i <= |u| - 12 ::
      NoNewline(u[..i]) && OccursAtIgnoringCase(u, "/github.com/", i)
      && u[i + 12..] != "" && '/' !in u[i + 12..]
  }

  predicate TagsTail(r: string) {
    var t := DropFinalNewline(r);
    forall k :: 0 <= k < |t| ==> t[k] in "/)]."
  }

  // `re.match(r".*github\.com/.*/tags[/)\]\.]*$", u)`: a tags page.
  predicate TagsPage(u: string) {
    exists i, j | 0 <= i && i + 11 <= j <= |u| - 5 ::
      NoNewline(u[..j]) && OccursAt(u, "github.com/", i) && OccursAt(u, "/tags", j)
      && TagsTail(u[j + 5..])
  }

  // `re.match(r".*/security/advisories/new$", u)`: GitHub's private reporting form.
  predicate AdvisoryForm(u: string) {
    var t := DropFinalNewline(u);
    NoNewline(t) && EndsWith(t, "/security/advisories/new")
  }

  /** After `host` at `i` comes an owner segment and then `/.github/`. */
  predicate OrgProfileAfter(url: string, i: int, host: string) {
    OccursAtIgnoringCase(url, host, i)
    && exists m | i + |host| < m <= |url| - 9 ::
         '/' !in url[i + |host|..m] && OccursAtIgnoringCase(url, "/.github/", m)
  }

  /** `re.match(r".*github(usercontent)?\.com/([^/]+)/\.github/.*", url, re.IGNORECASE)`:
      the text was found in an organisation's `.github` repository. */
  predicate OrgProfileSource(url: string) {
    exists i | 0 <= i <= |url| ::
      NoNewline(url[..i])
      && (OrgProfileAfter(url, i, "github.com/") || OrgProfileAfter(url, i, "githubusercontent.com/"))
  }

  /** `any(s in _url for s in ["security", "vulnerability", "reporting"])`. */
  predicate MentionsSecurity(u: string) {
    Contains(u, "security") || Contains(u, "vulnerability") || Contains(u, "reporting")
  }
}
