/** The per-analysis accumulator `Context` (disclosurecheck/util/context.py). */
module AnalysisContext {
  import opened Base
  import opened Text
  import opened Ordering
  import opened PackageUrls
  import opened Contacts

  datatype Context = Context(packageUrl: Purl, notes: seq<string>, relatedPurls: seq<Purl>, contacts: seq<Contact>)

  /** How an analysis step ends: normally, or by an exception. Python mutates the
      context in place, so a raised exception leaves the context as it stood when the
      exception was raised, and that state is what the caller sees afterwards. */
  datatype Outcome = Done(ctx: Context) | Raised(ctx: Context)

  /** A collector that writes only through `add_contact`: it keeps the package URL,
      loses no contact key and keeps the keys unique, however it ends. */
  ghost predicate OnlyAdds(collector: Context -> Outcome) {
    forall c: Context :: collector(c).ctx.packageUrl == c.packageUrl
      && Keys(c.contacts) <= Keys(collector(c).ctx.contacts)
      && (UniqueKeys(c.contacts) ==> UniqueKeys(collector(c).ctx.contacts))
  }

  /** The `ValueError` of the constructor's type check. */
  datatype ContextError = NotAPackageUrl

  /** `Context(package_url)`: anything that is not a package URL is rejected. */
  function NewContext(purl: Option<Purl>): (r: Result<Context, ContextError>)
    ensures r.Err? <==> purl.None?
    ensures r.Ok? ==> r.value.packageUrl == purl.value
    ensures r.Ok? ==> r.value.notes == [] && r.value.relatedPurls == [] && r.value.contacts == []
  {
    if purl.None? then Err(NotAPackageUrl) else Ok(Context(purl.value, [], [], []))
  }

  /** `itemgetter('priority', 'type', 'value')` compared as a tuple. */
  predicate ContactLess(a: Contact, b: Contact) {
    if a.priority != b.priority then a.priority < b.priority
    else if a.kind != b.kind then LexLess(a.kind, b.kind)
    else LexLess(a.value, b.value)
  }

  lemma ContactLessIsStrictOrder()
    ensures StrictOrder(ContactLess)
  {
    LexLessIsStrictTotalOrder();
  }

  /** Contacts with different `(type, value)` are always ordered one way or the other. */
  lemma ContactLessOrdersKeys(a: Contact, b: Contact)
    requires !SameKey(a, b)
    ensures ContactLess(a, b) || ContactLess(b, a)
  {
    LexLessIsStrictTotalOrder();
  }

  /** `[dict(t) for t in {tuple(d.items()) for d in contacts}]` followed by the sort. */
  function SortContacts(cs: seq<Contact>): (r: seq<Contact>)
    ensures Sorted(ContactLess, r) && Distinct(r)
    ensures forall c :: c in r <==> c in cs
    ensures UniqueKeys(cs) ==> UniqueKeys(r)
  {
    ContactLessIsStrictOrder();
    var r := SortedSet(ContactLess, cs);
    assert UniqueKeys(cs) ==> UniqueKeys(r) by {
      if UniqueKeys(cs) {
        forall i, j | 0 <= i < j < |r| ensures !SameKey(r[i], r[j]) {
          assert r[i] in r && r[j] in r;
          var a :| 0 <= a < |cs| && cs[a] == r[i];
          var b :| 0 <= b < |cs| && cs[b] == r[j];
        }
      }
    }
    r
  }

  /** `Context.sort`: contacts, notes and related package URLs become sorted and distinct. */
  function Sort(ctx: Context): (r: Context)
    ensures r.packageUrl == ctx.packageUrl
    ensures Sorted(ContactLess, r.contacts) && Distinct(r.contacts)
    ensures forall c :: c in r.contacts <==> c in ctx.contacts
    ensures Sorted(LexLess, r.notes) && Distinct(r.notes)
    ensures forall n :: n in r.notes <==> n in ctx.notes
    ensures Sorted(PurlLess, r.relatedPurls) && Distinct(r.relatedPurls)
    ensures forall p :: p in r.relatedPurls <==> p in ctx.relatedPurls
  {
    ctx.(contacts := SortContacts(ctx.contacts),
         notes := SortedStrings(ctx.notes),
         relatedPurls := SortedPurls(ctx.relatedPurls))
  }

  /** Sorting a context a second time changes nothing, provided no two contacts share
      a type and value (the invariant `add_contact` keeps). */
  lemma SortIdempotent(ctx: Context)
    requires UniqueKeys(ctx.contacts)
    ensures Sort(Sort(ctx)) == Sort(ctx)
  {
    var once := Sort(ctx);
    var twice := Sort(once);
    ContactLessIsStrictOrder();
    forall x, y | x in twice.contacts && y in twice.contacts
      ensures x == y || ContactLess(x, y) || ContactLess(y, x)
    {
      if x != y {
        var i :| 0 <= i < |once.contacts| && once.contacts[i] == x;
        var j :| 0 <= j < |once.contacts| && once.contacts[j] == y;
        if i < j { ContactLessOrdersKeys(x, y); } else { ContactLessOrdersKeys(y, x); }
      }
    }
    SortedListingUnique(ContactLess, twice.contacts, once.contacts);
    SortedStringsFixpoint(once.notes);
    PurlLessIsStrictTotalOrder();
    SortedListingUnique(PurlLess, twice.relatedPurls, once.relatedPurls);
  }

  /** No `[` is followed, anywhere later, by a `]`: no `[...]` markup segment is left. */
  predicate NoMarkup(s: string) {
    forall i, j :: 0 <= i < j < |s| ==> !(s[i] == '[' && s[j] == ']')
  }

  lemma NoMarkupSuffix(s: string, k: nat)
    requires k <= |s|
    ensures NoMarkup(s) ==> NoMarkup(s[k..])
  {
    if NoMarkup(s) {
      NoMarkupSuffixHolds(s, k);
    }
  }

  lemma NoMarkupSuffixHolds(s: string, k: nat)
    requires NoMarkup(s) && k <= |s|
    ensures NoMarkup(s[k..])
  {
    forall i, j | 0 <= i < j < |s[k..]| ensures !(s[k..][i] == '[' && s[k..][j] == ']') {
      assert s[k..][i] == s[k + i] && s[k..][j] == s[k + j];
    }
  }

  lemma NoMarkupCons(c: char, rest: string)
    requires NoMarkup(rest)
    requires c == '[' ==> ']' !in rest
    ensures NoMarkup([c] + rest)
  {
    forall i, j | 0 <= i < j < |[c] + rest| ensures !(([c] + rest)[i] == '[' && ([c] + rest)[j] == ']') {
      assert ([c] + rest)[j] == rest[j - 1];
      if i > 0 {
        assert ([c] + rest)[i] == rest[i - 1];
      }
    }
  }

  /** `re.sub(r"\[[^\]]*\]", "", s)`: every `[` that has a `]` after it is removed
      together with everything up to and including the first such `]`. */
  function StripMarkup(s: string): (r: string)
    ensures NoMarkup(r)
    ensures forall ch :: ch in r ==> ch in s
    ensures NoMarkup(s) ==> r == s
    ensures |r| <= |s|
    decreases |s|
  {
    if s == [] then []
    else if s[0] == '[' then
      match IndexOf(s[1..], ']')
      case Some(k) =>
        var r := StripMarkup(s[k + 2..]);
        assert !NoMarkup(s) by {
          assert s[k + 1] == s[1..][k];
        }
        r
      case None =>
        var rest := StripMarkup(s[1..]);
        NoMarkupCons(s[0], rest);
        NoMarkupSuffix(s, 1);
        [s[0]] + rest
    else
      var rest := StripMarkup(s[1..]);
      NoMarkupCons(s[0], rest);
      NoMarkupSuffix(s, 1);
      assert s == [s[0]] + s[1..];
      [s[0]] + rest
  }

  lemma StripMarkupCons(c: char, rest: string)
    requires c != '['
    ensures StripMarkup([c] + rest) == [c] + StripMarkup(rest)
  {
    assert ([c] + rest)[1..] == rest;
  }

  lemma HeadAppend(x: string, y: string)
    requires x != []
    ensures x + y == [x[0]] + (x[1..] + y)
  {
  }

  /** Text without a `[` passes through unchanged and is not looked at again. */
  lemma {:induction false} StripMarkupPlain(x: string, y: string)
    requires '[' !in x
    ensures StripMarkup(x + y) == x + StripMarkup(y)
    decreases |x|
  {
    if x == [] {
      assert x + y == y;
    } else {
      var c, tail := x[0], x[1..];
      assert '[' !in tail && c != '[' by {
        assert x == [c] + tail;
      }
      StripMarkupPlain(tail, y);
      StripMarkupCons(c, tail + y);
      HeadAppend(x, y);
      HeadAppend(x, StripMarkup(y));
    }
  }

  /** A `[`, then text without `]`, then `]`, is removed as one segment. */
  lemma StripMarkupSegment(m: string, y: string)
    requires ']' !in m
    ensures StripMarkup("[" + m + "]" + y) == StripMarkup(y)
  {
    var s := "[" + m + "]" + y;
    assert s[1..] == m + "]" + y;
    assert (m + "]" + y)[..|m|] == m;
    assert (m + "]" + y)[|m|] == ']';
    assert s[|m| + 2..] == y;
  }

  /** A `[` with no `]` anywhere after it is kept. */
  lemma StripMarkupUnclosed(y: string)
    requires ']' !in y
    ensures StripMarkup("[" + y) == "[" + StripMarkup(y)
  {
    assert ("[" + y)[1..] == y;
  }

  /** The three cases together: removing one closed segment from the middle of a text. */
  lemma StripMarkupRemovesSegment(x: string, m: string, y: string)
    requires '[' !in x && ']' !in m
    ensures StripMarkup(x + "[" + m + "]" + y) == x + StripMarkup(y)
  {
    assert x + "[" + m + "]" + y == x + ("[" + m + "]" + y);
    StripMarkupPlain(x, "[" + m + "]" + y);
    StripMarkupSegment(m, y);
  }

  lemma {:induction false} ReplaceKeepsNoMarkup(s: string, pat: string, repl: string)
    requires |pat| > 0 && '[' !in repl && ']' !in repl
    requires NoMarkup(s)
    ensures NoMarkup(Replace(s, pat, repl))
    decreases |s|
  {
    if |s| >= |pat| {
      ReplaceStep(s, pat, repl);
      if s[..|pat|] == pat {
        NoMarkupSuffix(s, |pat|);
        ReplaceKeepsNoMarkup(s[|pat|..], pat, repl);
        var rest := Replace(s[|pat|..], pat, repl);
        forall i, j | 0 <= i < j < |repl + rest|
          ensures !((repl + rest)[i] == '[' && (repl + rest)[j] == ']')
        {
          if i < |repl| {
            assert (repl + rest)[i] == repl[i];
          } else {
            assert (repl + rest)[i] == rest[i - |repl|] && (repl + rest)[j] == rest[j - |repl|];
          }
        }
      } else {
        NoMarkupSuffix(s, 1);
        ReplaceKeepsNoMarkup(s[1..], pat, repl);
        ReplaceFacts(s[1..], pat, repl);
        var rest := Replace(s[1..], pat, repl);
        if s[0] == '[' {
          forall k | 0 <= k < |s[1..]| ensures s[1..][k] != ']' {
            assert s[1..][k] == s[k + 1];
          }
        }
        NoMarkupCons(s[0], rest);
      }
    }
  }

  /** `Context.clean_note`. */
  function CleanNote(note: string): (r: string)
    ensures note == "" ==> r == ""
    ensures NoMarkup(r)
    ensures NoMarkup(note) && !Contains(note, "  ") ==> r == note
    ensures note != "" ==> r == Join(Split(StripMarkup(note), "  "), " ")
  {
    if note == "" then note
    else
      ReplaceIsJoinOfSplit(StripMarkup(note), "  ", " ");
      ReplaceKeepsNoMarkup(StripMarkup(note), "  ", " ");
      ReplaceFacts(StripMarkup(note), "  ", " ");
      Replace(StripMarkup(note), "  ", " ")
  }

  /** The dictionary `to_dict` builds for the JSON output. */
  datatype ContextDict = ContextDict(packageUrl: string, contacts: seq<Contact>, relatedPurls: seq<string>, notes: seq<string>)

  function CleanNotes(notes: seq<string>): (r: seq<string>)
    ensures |r| == |notes| && forall i :: 0 <= i < |notes| ==> r[i] == CleanNote(notes[i])
  {
    seq(|notes|, i requires 0 <= i < |notes| => CleanNote(notes[i]))
  }

  /** `str(s) for s in related_purls if str(s) != str(package_url)`. */
  function OtherPurlStrings(related: seq<Purl>, own: Purl): (r: seq<string>)
    ensures forall s :: s in r <==> s != PurlString(own) && exists p :: p in related && PurlString(p) == s
  {
    if related == [] then []
    else
      var rest := OtherPurlStrings(related[1..], own);
      assert forall p :: p in related <==> p == related[0] || p in related[1..];
      if PurlString(related[0]) != PurlString(own) then [PurlString(related[0])] + rest else rest
  }

  /** `Context.to_dict`. */
  function ToDict(ctx: Context): (d: ContextDict)
    ensures d.packageUrl == PurlString(ctx.packageUrl)
    ensures d.contacts == ctx.contacts
    ensures Sorted(LexLess, d.relatedPurls) && Distinct(d.relatedPurls)
    ensures forall s :: s in d.relatedPurls <==>
      s != PurlString(ctx.packageUrl) && exists p :: p in ctx.relatedPurls && PurlString(p) == s
    ensures Sorted(LexLess, d.notes) && multiset(d.notes) == multiset(CleanNotes(ctx.notes))
    ensures forall n :: n in d.notes ==> NoMarkup(n)
  {
    var notes := SortStrings(CleanNotes(ctx.notes));
    assert forall n :: n in notes ==> n in multiset(CleanNotes(ctx.notes));
    ContextDict(PurlString(ctx.packageUrl), ctx.contacts,
                SortedStrings(OtherPurlStrings(ctx.relatedPurls, ctx.packageUrl)), notes)
  }
}
