/** `find_contacts` and `extract_emails` (disclosurecheck/util/searchers.py). */
module Searchers {
  import opened Base
  import opened Text
  import opened Ordering
  import opened Contacts
  import opened UrlRules

  /** The foreign text miners, as functions the caller supplies. */
  datatype Extractors = Extractors(
    /** `re.findall` of the named-address pattern: (name, address) capture pairs. */
    namedEmails: string -> seq<(string, string)>,
    /** `URLExtract().find_urls(text)`. */
    findUrls: string -> seq<string>,
    /** `URLExtract(extract_email=True).find_urls(text)`. */
    findEmails: string -> seq<string>,
    /** `validators.email`. */
    isValidEmail: string -> bool,
    /** `sanitize_github_url`. */
    sanitizeUrl: string -> string)

  const DefaultPriority: int := 25
  const TideliftPriority: int := 5
  const TideliftAddress: string := "security@tidelift.com"
  const TideliftSecurityPage: string := "https://tidelift.com/security"

  /** `extract_emails`: the extractor's candidates that pass validation, in order. */
  function ExtractEmails(x: Extractors, text: string): (r: seq<string>)
    ensures forall e :: e in r <==> e in x.findEmails(text) && x.isValidEmail(e)
    ensures |r| <= |x.findEmails(text)|
  {
    Filter(x.isValidEmail, x.findEmails(text))
  }

  /** `match[1].replace("[at]", "@").strip()`. */
  function NormalizeAddress(address: string): string {
    Strip(Replace(address, "[at]", "@"))
  }

  /** An address to report, with the name it was found with, if any. */
  datatype Candidate = Candidate(name: Option<string>, address: string)

  function NamedCandidates(pairs: seq<(string, string)>): (r: seq<Candidate>)
    ensures |r| == |pairs|
    ensures forall i :: 0 <= i < |pairs| ==>
      r[i] == Candidate(Some(Strip(pairs[i].0)), NormalizeAddress(pairs[i].1))
    ensures forall c :: c in r ==> c.name.Some?
  {
    seq(|pairs|, i requires 0 <= i < |pairs| => Candidate(Some(Strip(pairs[i].0)), NormalizeAddress(pairs[i].1)))
  }

  function BareCandidates(addresses: seq<string>): (r: seq<Candidate>)
    ensures |r| == |addresses|
    ensures forall i :: 0 <= i < |addresses| ==> r[i] == Candidate(None, addresses[i])
    ensures forall c :: c in r ==> c.name.None? && c.address in addresses
  {
    seq(|addresses|, i requires 0 <= i < |addresses| => Candidate(None, addresses[i]))
  }

  predicate DistinctValues(cs: seq<Contact>) {
    forall i, j :: 0 <= i < j < |cs| ==> cs[i].value != cs[j].value
  }

  function Values(cs: seq<Contact>): set<string> {
    set c | c in cs :: c.value
  }

  function Addresses(cands: seq<Candidate>): set<string> {
    set c | c in cands :: c.address
  }

  lemma ValuesCons(c: Contact, cs: seq<Contact>)
    ensures Values([c] + cs) == {c.value} + Values(cs)
  {
    assert forall d :: d in [c] + cs <==> d == c || d in cs;
  }

  lemma ValuesAppend(a: seq<Contact>, b: seq<Contact>)
    ensures Values(a + b) == Values(a) + Values(b)
  {
    assert forall c :: c in a + b <==> c in a || c in b;
  }

  lemma AddressesCons(cands: seq<Candidate>)
    requires cands != []
    ensures Addresses(cands) == {cands[0].address} + Addresses(cands[1..])
  {
    assert forall c :: c in cands <==> c == cands[0] || c in cands[1..];
  }

  lemma AddressesAppend(a: seq<Candidate>, b: seq<Candidate>)
    ensures Addresses(a + b) == Addresses(a) + Addresses(b)
  {
    assert forall c :: c in a + b <==> c in a || c in b;
  }

  /** The `found_contacts` discipline: each candidate becomes an e-mail contact unless
      its address was already added in this call. */
  function EmailContacts(cands: seq<Candidate>, url: string, priority: int, found: set<string>): (r: seq<Contact>)
    ensures forall c :: c in r ==> c.kind == "email" && c.priority == priority && c.source == Some(url)
    ensures forall c :: c in r ==> c.value !in found
    decreases |cands|
  {
    if cands == [] then []
    else
      var cand := cands[0];
      if cand.address in found then
        EmailContacts(cands[1..], url, priority, found)
      else
        [Contact(priority, "email", cand.address, Some(url), cand.name)]
        + EmailContacts(cands[1..], url, priority, found + {cand.address})
  }

  /** Within one call an address is reported at most once. */
  lemma {:induction false} EmailContactsDistinct(cands: seq<Candidate>, url: string, priority: int, found: set<string>)
    ensures DistinctValues(EmailContacts(cands, url, priority, found))
    decreases |cands|
  {
    if cands != [] {
      var cand := cands[0];
      if cand.address in found {
        EmailContactsDistinct(cands[1..], url, priority, found);
      } else {
        var rest := EmailContacts(cands[1..], url, priority, found + {cand.address});
        EmailContactsDistinct(cands[1..], url, priority, found + {cand.address});
        var r := EmailContacts(cands, url, priority, found);
        assert r == [Contact(priority, "email", cand.address, Some(url), cand.name)] + rest;
        forall i, j | 0 <= i < j < |r| ensures r[i].value != r[j].value {
          assert r[j] == rest[j - 1] && rest[j - 1] in rest;
          if i > 0 {
            assert r[i] == rest[i - 1];
          }
        }
      }
    }
  }

  /** Every address not already found is reported, and nothing else. */
  lemma {:induction false} EmailContactsValues(cands: seq<Candidate>, url: string, priority: int, found: set<string>)
    ensures Values(EmailContacts(cands, url, priority, found)) == Addresses(cands) - found
    decreases |cands|
  {
    if cands != [] {
      var cand := cands[0];
      AddressesCons(cands);
      if cand.address in found {
        EmailContactsValues(cands[1..], url, priority, found);
      } else {
        var c := Contact(priority, "email", cand.address, Some(url), cand.name);
        var rest := EmailContacts(cands[1..], url, priority, found + {cand.address});
        EmailContactsValues(cands[1..], url, priority, found + {cand.address});
        assert EmailContacts(cands, url, priority, found) == [c] + rest;
        ValuesCons(c, rest);
      }
    }
  }

  /** Each reported contact carries the name and address of one candidate. */
  lemma {:induction false} EmailContactsFromCandidates(cands: seq<Candidate>, url: string, priority: int, found: set<string>)
    ensures forall c :: c in EmailContacts(cands, url, priority, found) ==> Candidate(c.name, c.value) in cands
    decreases |cands|
  {
    if cands != [] {
      var cand := cands[0];
      var found' := if cand.address in found then found else found + {cand.address};
      EmailContactsFromCandidates(cands[1..], url, priority, found');
      assert forall d :: d in cands[1..] ==> d in cands;
    }
  }

  /** The addresses of the named matches, normalised. */
  function NamedAddresses(pairs: seq<(string, string)>): set<string> {
    set p | p in pairs :: NormalizeAddress(p.1)
  }

  lemma NamedCandidateAddress(d: seq<(string, string)>, i: nat)
    requires i < |d|
    ensures NormalizeAddress(d[i].1) in Addresses(NamedCandidates(d))
  {
    var named := NamedCandidates(d);
    assert named[i].address == NormalizeAddress(d[i].1);
    assert named[i] in named;
  }

  lemma NamedAddressFound(pairs: seq<(string, string)>, e: string)
    requires e in NamedAddresses(pairs)
    ensures e in Addresses(NamedCandidates(Dedup(pairs)))
  {
    var d := Dedup(pairs);
    var p :| p in pairs && e == NormalizeAddress(p.1);
    assert p in d;
    var i :| 0 <= i < |d| && d[i] == p;
    NamedCandidateAddress(d, i);
  }

  lemma NamedCandidateFromMatch(pairs: seq<(string, string)>, e: string)
    requires e in Addresses(NamedCandidates(Dedup(pairs)))
    ensures e in NamedAddresses(pairs)
  {
    var d := Dedup(pairs);
    var named := NamedCandidates(d);
    var c :| c in named && c.address == e;
    var i :| 0 <= i < |named| && named[i] == c;
    var p := d[i];
    assert p in d;
    assert p in pairs && e == NormalizeAddress(p.1);
  }

  lemma NamedCandidatesAddresses(pairs: seq<(string, string)>)
    ensures Addresses(NamedCandidates(Dedup(pairs))) == NamedAddresses(pairs)
  {
    forall e | e in NamedAddresses(pairs) ensures e in Addresses(NamedCandidates(Dedup(pairs))) {
      NamedAddressFound(pairs, e);
    }
    forall e | e in Addresses(NamedCandidates(Dedup(pairs))) ensures e in NamedAddresses(pairs) {
      NamedCandidateFromMatch(pairs, e);
    }
  }

  lemma BareCandidatesAddresses(addresses: seq<string>)
    ensures Addresses(BareCandidates(addresses)) == set e | e in addresses
  {
    var bare := BareCandidates(addresses);
    forall e | e in addresses ensures e in Addresses(bare) {
      var i :| 0 <= i < |addresses| && addresses[i] == e;
      assert bare[i] in bare;
    }
  }

  /** The text bare addresses are extracted from: the original followed by its copy
      with "[at]" written as "@". */
  function BareSearchText(text: string): string {
    text + " " + Replace(text, "[at]", "@")
  }

  /** All addresses `find_contacts` reports: named ones first, then bare ones. */
  function AddressCandidates(x: Extractors, text: string): (r: seq<Candidate>)
    ensures forall c :: c in r && c.name.None? ==> c.address in ExtractEmails(x, BareSearchText(text))
  {
    var named := NamedCandidates(Dedup(x.namedEmails(text)));
    var bare := BareCandidates(ExtractEmails(x, BareSearchText(text)));
    assert forall c :: c in named + bare ==> c in named || c in bare;
    named + bare
  }

  /** The reported addresses are the normalised named addresses and the valid bare ones. */
  lemma AddressCandidatesAddresses(x: Extractors, text: string)
    ensures Addresses(AddressCandidates(x, text))
         == NamedAddresses(x.namedEmails(text)) + set e | e in ExtractEmails(x, BareSearchText(text))
  {
    var named := NamedCandidates(Dedup(x.namedEmails(text)));
    var bare := BareCandidates(ExtractEmails(x, BareSearchText(text)));
    NamedCandidatesAddresses(x.namedEmails(text));
    BareCandidatesAddresses(ExtractEmails(x, BareSearchText(text)));
    AddressesAppend(named, bare);
  }

  /** The tidelift contact `find_contacts` adds for any text mentioning tidelift.com. */
  function TideliftMention(x: Extractors, url: string, text: string): (r: seq<Contact>)
    ensures Contains(text, "tidelift.com") <==> r != []
    ensures forall c :: c in r ==>
      c == Contact(TideliftPriority, "tidelift", TideliftAddress, Some(x.sanitizeUrl(url)), None)
  {
    if Contains(text, "tidelift.com") then
      [Contact(TideliftPriority, "tidelift", TideliftAddress, Some(x.sanitizeUrl(url)), None)]
    else []
  }

  /** The priority computed for a URL: 70, 50 for text from an organisation's
      `.github` repository, 11 for a security-related URL (the last rule wins). */
  function UrlPriority(source: string, u: string): (p: int)
    ensures p == 11 <==> MentionsSecurity(u)
    ensures p == 50 <==> !MentionsSecurity(u) && OrgProfileSource(source)
    ensures p == 70 <==> !MentionsSecurity(u) && !OrgProfileSource(source)
  {
    var p := 70;
    var p := if OrgProfileSource(source) then 50 else p;
    if MentionsSecurity(u) then 11 else p
  }

  /** The classification ladder one extracted URL goes through. */
  function UrlContact(source: string, u: string): (r: Option<Contact>)
    ensures r.Some? <==> StartsWith(u, "http") && !BareProfile(u) && !TagsPage(u) && !Ignored(u)
    ensures r.Some? ==> r.value.source == Some(source) && r.value.name.None?
    ensures r.Some? && AdvisoryForm(u) ==> r.value.kind == "github_pvr" && r.value.priority == 0 && r.value.value == u
    ensures r.Some? && !AdvisoryForm(u) && u == TideliftSecurityPage ==>
      r.value.kind == "tidelift" && r.value.priority == TideliftPriority && r.value.value == TideliftAddress
    ensures r.Some? && !AdvisoryForm(u) && u != TideliftSecurityPage ==>
      r.value.kind == "url" && r.value.value == u && r.value.priority == UrlPriority(source, u)
  {
    if !StartsWith(u, "http") then None
    else
      var priority := UrlPriority(source, u);
      if BareProfile(u) then None
      else if TagsPage(u) then None
      else if Ignored(u) then None
      else if AdvisoryForm(u) then Some(Contact(0, "github_pvr", u, Some(source), None))
      else if u == TideliftSecurityPage then Some(Contact(TideliftPriority, "tidelift", TideliftAddress, Some(source), None))
      else Some(Contact(priority, "url", u, Some(source), None))
  }

  /** The kinds and priorities a URL can yield. */
  predicate UrlContactShape(c: Contact) {
    || (c.kind == "github_pvr" && c.priority == 0)
    || (c.kind == "tidelift" && c.priority == TideliftPriority && c.value == TideliftAddress)
    || (c.kind == "url" && c.priority in {11, 50, 70})
  }

  /** `for _url in set(URLExtract().find_urls(text))`, keeping the contacts produced. */
  function UrlContacts(source: string, urls: seq<string>): (r: seq<Contact>)
    ensures |r| <= |urls|
    ensures forall c :: c in r ==> c.source == Some(source) && c.name.None?
    ensures forall c :: c in r ==> UrlContactShape(c)
  {
    if urls == [] then []
    else
      var rest := UrlContacts(source, urls[1..]);
      match UrlContact(source, urls[0])
      case None => rest
      case Some(c) => [c] + rest
  }

  /** The URL contacts are exactly what the ladder makes of the extracted URLs. */
  lemma {:induction false} UrlContactsMembership(source: string, urls: seq<string>, c: Contact)
    ensures c in UrlContacts(source, urls) <==> exists u :: u in urls && UrlContact(source, u) == Some(c)
    decreases |urls|
  {
    if urls != [] {
      UrlContactsMembership(source, urls[1..], c);
      assert forall u :: u in urls <==> u == urls[0] || u in urls[1..];
    }
  }

  /** The contacts `find_contacts` hands to `add_contact`, in order: e-mail addresses,
      then the tidelift mention, then the URLs. */
  function Discovered(x: Extractors, url: string, text: string, priority: int): (r: seq<Contact>)
    ensures forall c :: c in r ==> c.kind in {"email", "tidelift", "github_pvr", "url"}
    ensures forall c :: c in r && c.kind == "email" ==> c.priority == priority && c.source == Some(url)
    ensures forall c :: c in r && c.kind != "email" ==> UrlContactShape(c)
    ensures Contains(text, "tidelift.com") ==>
      Contact(TideliftPriority, "tidelift", TideliftAddress, Some(x.sanitizeUrl(url)), None) in r
  {
    EmailContacts(AddressCandidates(x, text), url, priority, {})
    + TideliftMention(x, url, text)
    + UrlContacts(url, Dedup(x.findUrls(text)))
  }

  /** Every address found in the text is reported. */
  lemma DiscoveredReportsEveryAddress(x: Extractors, url: string, text: string, priority: int)
    ensures Addresses(AddressCandidates(x, text)) <= Values(Discovered(x, url, text, priority))
  {
    var emails := EmailContacts(AddressCandidates(x, text), url, priority, {});
    var tidelift := TideliftMention(x, url, text);
    var urls := UrlContacts(url, Dedup(x.findUrls(text)));
    EmailContactsValues(AddressCandidates(x, text), url, priority, {});
    ValuesAppend(emails, tidelift);
    ValuesAppend(emails + tidelift, urls);
    assert Discovered(x, url, text, priority) == emails + tidelift + urls;
  }

  /** Every e-mail contact reported carries an address found in the text. */
  lemma DiscoveredEmailsAreAddresses(x: Extractors, url: string, text: string, priority: int, c: Contact)
    requires c in Discovered(x, url, text, priority) && c.kind == "email"
    ensures c.value in Addresses(AddressCandidates(x, text))
  {
    var emails := EmailContacts(AddressCandidates(x, text), url, priority, {});
    var others := TideliftMention(x, url, text) + UrlContacts(url, Dedup(x.findUrls(text)));
    assert Discovered(x, url, text, priority) == emails + others;
    assert c !in others;
    EmailContactsValues(AddressCandidates(x, text), url, priority, {});
    assert c.value in Values(emails);
  }

  /** Within one text, an address is reported as at most one e-mail contact. */
  lemma DiscoveredEmailsDistinct(x: Extractors, url: string, text: string, priority: int)
    ensures var r := Discovered(x, url, text, priority);
      forall i, j :: 0 <= i < j < |r| && r[i].kind == "email" && r[j].kind == "email" ==> r[i].value != r[j].value
  {
    var emails := EmailContacts(AddressCandidates(x, text), url, priority, {});
    var tidelift := TideliftMention(x, url, text);
    var urls := UrlContacts(url, Dedup(x.findUrls(text)));
    var r := Discovered(x, url, text, priority);
    assert r == emails + (tidelift + urls);
    EmailContactsDistinct(AddressCandidates(x, text), url, priority, {});
    forall i, j | 0 <= i < j < |r| && r[i].kind == "email" && r[j].kind == "email"
      ensures r[i].value != r[j].value
    {
      if j < |emails| {
        assert r[i] == emails[i] && r[j] == emails[j];
      } else {
        NoEmailAfter(emails, tidelift + urls, j);
        assert false;
      }
    }
  }

  lemma NoEmailAfter(head: seq<Contact>, tail: seq<Contact>, j: int)
    requires forall c :: c in tail ==> c.kind != "email"
    requires |head| <= j < |head| + |tail|
    ensures (head + tail)[j].kind != "email"
  {
    assert (head + tail)[j] == tail[j - |head|];
  }

  /** `find_contacts(url, text, context, priority)` on the context's contact list. */
  function FindContacts(x: Extractors, url: string, text: string, priority: int, cs: seq<Contact>): (r: seq<Contact>)
    ensures Keys(r) == Keys(cs) + Keys(Discovered(x, url, text, priority))
    ensures UniqueKeys(cs) ==> UniqueKeys(r)
    ensures |cs| <= |r| && forall i :: 0 <= i < |cs| ==> SameKey(r[i], cs[i])
  {
    AddAll(cs, Discovered(x, url, text, priority))
  }
}
