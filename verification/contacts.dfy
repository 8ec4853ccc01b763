/** Contact records and the merge-on-insert accumulator of `Context.add_contact`
    (disclosurecheck/util/context.py). */
module Contacts {
  import opened Base
  import opened Text
  import opened Ordering

  /** One contact dictionary. `kind` is the `type` key. `source` and `name` are
      optional keys: `None` is a missing key, `Some("")` a present but falsy
      value (the program treats an empty string and `None` alike). */
  datatype Contact = Contact(priority: int, kind: string, value: string, source: Option<string>, name: Option<string>)

  predicate SameKey(a: Contact, b: Contact) {
    a.kind == b.kind && a.value == b.value
  }

  function Key(c: Contact): (string, string) {
    (c.kind, c.value)
  }

  function Keys(cs: seq<Contact>): set<(string, string)> {
    set c | c in cs :: Key(c)
  }

  /** No two contacts share a `(type, value)` pair. */
  predicate UniqueKeys(cs: seq<Contact>) {
    forall i, j :: 0 <= i < j < |cs| ==> !SameKey(cs[i], cs[j])
  }

  /** `i` is the position of the first contact sharing `c`'s type and value. */
  predicate IsFirstMatch(cs: seq<Contact>, c: Contact, i: int) {
    0 <= i < |cs| && SameKey(cs[i], c) && forall j :: 0 <= j < i ==> !SameKey(cs[j], c)
  }

  lemma KeysCons(c: Contact, cs: seq<Contact>)
    ensures Keys([c] + cs) == {Key(c)} + Keys(cs)
  {
    assert forall d :: d in [c] + cs <==> d == c || d in cs;
  }

  lemma KeyInKeys(cs: seq<Contact>, i: int)
    requires 0 <= i < |cs|
    ensures Key(cs[i]) in Keys(cs)
  {
  }

  lemma KeysHaveWitness(cs: seq<Contact>, k: (string, string))
    requires k in Keys(cs)
    ensures exists i :: 0 <= i < |cs| && Key(cs[i]) == k
  {
    var c :| c in cs && Key(c) == k;
    var i :| 0 <= i < |cs| && cs[i] == c;
  }

  /** The scan of `for contact in self.contacts` for the first matching contact. */
  function FirstMatch(cs: seq<Contact>, c: Contact): (r: Option<nat>)
    ensures r.None? <==> Key(c) !in Keys(cs)
    ensures r.Some? ==> IsFirstMatch(cs, c, r.value)
  {
    if cs == [] then None
    else if SameKey(cs[0], c) then KeyInKeys(cs, 0); Some(0)
    else
      KeysCons(cs[0], cs[1..]);
      assert cs == [cs[0]] + cs[1..];
      match FirstMatch(cs[1..], c)
      case None => None
      case Some(k) => Some(k + 1)
  }

  predicate NonEmptyText(s: string) {
    s != ""
  }

  /** `filter(None, sorted(set(old.split(',') + new.split(','))))`. */
  function MergedParts(existing: string, incoming: string): (r: seq<string>)
    ensures Sorted(LexLess, r) && Distinct(r)
    ensures forall p :: p in r <==> p != "" && (p in Split(existing, ",") || p in Split(incoming, ","))
    ensures forall p :: p in r ==> ',' !in p
  {
    var all := Split(existing, ",") + Split(incoming, ",");
    SplitPiecesFree(existing, ',');
    SplitPiecesFree(incoming, ',');
    var sorted := SortedStrings(all);
    FilterKeepsOrder(LexLess, NonEmptyText, sorted);
    Filter(NonEmptyText, sorted)
  }

  lemma JoinStartsWithFirst(xs: seq<string>, sep: string)
    requires |xs| >= 1
    ensures StartsWith(Join(xs, sep), xs[0])
  {
  }

  /** The merged value of a field both contacts carry: the comma-join of the sorted,
      distinct, non-empty comma-separated parts; the existing text is kept when no
      part is left. */
  function MergeText(existing: string, incoming: string): (r: string)
    ensures MergedParts(existing, incoming) == [] ==> r == existing
    ensures MergedParts(existing, incoming) != [] ==> Split(r, ",") == MergedParts(existing, incoming)
    ensures existing != "" ==> r != ""
  {
    var parts := MergedParts(existing, incoming);
    if parts == [] then existing
    else
      SplitJoin(parts, ',');
      assert parts[0] in parts;
      JoinStartsWithFirst(parts, ",");
      Join(parts, ",")
  }

  /** Merge of one optional field (`source` or `name`), with a missing key read as falsy. */
  function MergeField(existing: Option<string>, incoming: Option<string>): (r: Option<string>)
    ensures Truthy(existing) || Truthy(incoming) ==> Truthy(r)
    ensures Truthy(existing) && Truthy(incoming) ==> r == Some(MergeText(existing.value, incoming.value))
    ensures Truthy(existing) && !Truthy(incoming) ==> r == existing
    ensures !Truthy(existing) ==> r == (if Truthy(incoming) then incoming else existing)
  {
    if Truthy(existing) then
      if Truthy(incoming) then Some(MergeText(existing.value, incoming.value)) else existing
    else if Truthy(incoming) then incoming
    else existing
  }

  /** The consolidated contact: same type and value, the numerically larger priority,
      merged `source` and `name`. */
  function Merge(existing: Contact, incoming: Contact): (r: Contact)
    ensures SameKey(r, existing)
    ensures r.priority >= existing.priority && r.priority >= incoming.priority
    ensures r.priority == existing.priority || r.priority == incoming.priority
  {
    existing.(priority := Max(existing.priority, incoming.priority),
              source := MergeField(existing.source, incoming.source),
              name := MergeField(existing.name, incoming.name))
  }

  /** `Context.add_contact`, with a field missing from the new contact read as falsy. */
  function AddContact(cs: seq<Contact>, c: Contact): (r: seq<Contact>)
    ensures Keys(r) == Keys(cs) + {Key(c)}
    ensures UniqueKeys(cs) ==> UniqueKeys(r)
    ensures |cs| <= |r| && forall i :: 0 <= i < |cs| ==> SameKey(r[i], cs[i])
    ensures Key(c) !in Keys(cs) ==> r == cs + [c]
    ensures forall i | IsFirstMatch(cs, c, i) ::
      && |r| == |cs|
      && SameKey(r[i], cs[i])
      && r[i].priority >= cs[i].priority && r[i].priority >= c.priority
      && (r[i].priority == cs[i].priority || r[i].priority == c.priority)
      && r[i].source == MergeField(cs[i].source, c.source)
      && r[i].name == MergeField(cs[i].name, c.name)
      && (forall j | 0 <= j < |cs| && j != i :: r[j] == cs[j])
  {
    match FirstMatch(cs, c)
    case None =>
      assert Keys(cs + [c]) == Keys(cs) + {Key(c)} by {
        assert forall d :: d in cs + [c] <==> d in cs || d == c;
      }
      forall j | 0 <= j < |cs| ensures !SameKey(cs[j], c) {
        KeyInKeys(cs, j);
      }
      assert forall i' :: !IsFirstMatch(cs, c, i');
      cs + [c]
    case Some(i) =>
      var r := cs[i := Merge(cs[i], c)];
      assert Keys(r) == Keys(cs) by {
        forall k | k in Keys(r) ensures k in Keys(cs) {
          KeysHaveWitness(r, k);
          var j :| 0 <= j < |r| && Key(r[j]) == k;
          KeyInKeys(cs, j);
        }
        forall k | k in Keys(cs) ensures k in Keys(r) {
          KeysHaveWitness(cs, k);
          var j :| 0 <= j < |cs| && Key(cs[j]) == k;
          KeyInKeys(r, j);
        }
      }
      assert forall i' | IsFirstMatch(cs, c, i') :: i' == i;
      r
  }

  /** Adding a contact whose key is first held at position `i` merges it into that position. */
  lemma AddContactAt(cs: seq<Contact>, c: Contact, i: nat)
    requires IsFirstMatch(cs, c, i)
    ensures AddContact(cs, c) == cs[i := Merge(cs[i], c)]
  {
    var k := FirstMatch(cs, c);
    assert k.Some? by { KeyInKeys(cs, i); }
    assert k.value == i;
  }

  /** Two contacts with a new key, added one after the other, end up as one merged entry. */
  lemma AddContactTwiceNew(cs: seq<Contact>, a: Contact, b: Contact)
    requires Key(a) !in Keys(cs) && SameKey(a, b)
    ensures AddContact(AddContact(cs, a), b) == cs + [Merge(a, b)]
  {
    var cs1 := AddContact(cs, a);
    assert IsFirstMatch(cs1, b, |cs|) by {
      forall j | 0 <= j < |cs| ensures !SameKey(cs1[j], b) {
        KeyInKeys(cs, j);
      }
    }
    AddContactAt(cs1, b, |cs|);
    assert cs1[|cs| := Merge(a, b)] == cs + [Merge(a, b)];
  }

  /** Consecutive `add_contact` calls, in order. */
  function AddAll(cs: seq<Contact>, news: seq<Contact>): (r: seq<Contact>)
    ensures Keys(r) == Keys(cs) + Keys(news)
    ensures UniqueKeys(cs) ==> UniqueKeys(r)
    ensures |cs| <= |r| && forall i :: 0 <= i < |cs| ==> SameKey(r[i], cs[i])
    decreases |news|
  {
    if news == [] then cs
    else
      KeysCons(news[0], news[1..]);
      assert news == [news[0]] + news[1..];
      AddAll(AddContact(cs, news[0]), news[1..])
  }

  /** A field whose comma-separated parts are already sorted, distinct and non-empty
      (a single URL or name without commas is one). */
  predicate CanonicalField(f: Option<string>) {
    !Truthy(f) ||
    var ps := Split(f.value, ",");
    Sorted(LexLess, ps) && Distinct(ps) && forall p :: p in ps ==> p != ""
  }

  lemma MergeTextSelf(s: string)
    requires CanonicalField(Some(s))
    ensures MergeText(s, s) == s
  {
    if s == "" {
      assert Split(s, ",") == [""];
      assert MergedParts(s, s) == [] by {
        var m := MergedParts(s, s);
        if m != [] {
          HeadIsMember(m);
          assert false;
        }
      }
    } else {
      var ps := Split(s, ",");
      var merged := MergedParts(s, s);
      LexLessIsStrictTotalOrder();
      SortedListingUnique(LexLess, merged, ps);
      JoinSplit(s, ",");
    }
  }

  /** Merging the same field value a second time changes nothing. */
  lemma MergeTextAgain(existing: string, incoming: string)
    requires existing != "" && incoming != ""
    ensures MergeText(MergeText(existing, incoming), incoming) == MergeText(existing, incoming)
  {
    var parts := MergedParts(existing, incoming);
    if parts != [] {
      var m := MergeText(existing, incoming);
      var again := MergedParts(m, incoming);
      assert Split(m, ",") == parts;
      LexLessIsStrictTotalOrder();
      SortedListingUnique(LexLess, again, parts);
    }
  }

  lemma MergeFieldAgain(existing: Option<string>, incoming: Option<string>)
    requires CanonicalField(incoming)
    ensures MergeField(MergeField(existing, incoming), incoming) == MergeField(existing, incoming)
  {
    if Truthy(existing) && Truthy(incoming) {
      MergeTextAgain(existing.value, incoming.value);
    } else if Truthy(incoming) {
      MergeTextSelf(incoming.value);
    }
  }

  lemma MergeFieldSelf(f: Option<string>)
    requires CanonicalField(f)
    ensures MergeField(f, f) == f
  {
    if Truthy(f) {
      MergeTextSelf(f.value);
    }
  }

  lemma AddContactIdempotentAppended(cs: seq<Contact>, c: Contact)
    requires CanonicalField(c.source) && CanonicalField(c.name)
    requires Key(c) !in Keys(cs)
    ensures AddContact(AddContact(cs, c), c) == AddContact(cs, c)
  {
    var once := AddContact(cs, c);
    assert once == cs + [c];
    forall j | 0 <= j < |cs| ensures !SameKey(cs[j], c) {
      KeyInKeys(cs, j);
    }
    assert IsFirstMatch(once, c, |cs|);
    MergeFieldSelf(c.source);
    MergeFieldSelf(c.name);
    assert Merge(c, c) == c;
  }

  lemma AddContactIdempotentMerged(cs: seq<Contact>, c: Contact, i: nat)
    requires CanonicalField(c.source) && CanonicalField(c.name)
    requires IsFirstMatch(cs, c, i)
    ensures AddContact(AddContact(cs, c), c) == AddContact(cs, c)
  {
    var once := AddContact(cs, c);
    assert IsFirstMatch(once, c, i);
    var twice := AddContact(once, c);
    MergeFieldAgain(cs[i].source, c.source);
    MergeFieldAgain(cs[i].name, c.name);
    assert twice[i] == once[i];
    assert |twice| == |once|;
    assert forall j | 0 <= j < |once| :: twice[j] == once[j];
  }

  /** Adding the same contact twice has the effect of adding it once. */
  lemma AddContactIdempotent(cs: seq<Contact>, c: Contact)
    requires CanonicalField(c.source) && CanonicalField(c.name)
    ensures AddContact(AddContact(cs, c), c) == AddContact(cs, c)
  {
    match FirstMatch(cs, c)
    case None => AddContactIdempotentAppended(cs, c);
    case Some(i) => AddContactIdempotentMerged(cs, c, i);
  }

  /** The `KeyError` of `new_contact[key]`. */
  datatype MergeError = KeyError

  /** One field as the loop over `(contact.keys() | new_contact.keys()) - {...}` treats it. */
  function MergeFieldAsWritten(existing: Option<string>, incoming: Option<string>): (r: Result<Option<string>, MergeError>)
    ensures r.Err? <==> existing == Some("") && incoming.None?
    ensures r.Ok? ==> r.value == MergeField(existing, incoming)
  {
    if existing.None? && incoming.None? then Ok(existing)
    else if Truthy(existing) then Ok(MergeField(existing, incoming))
    else if incoming.None? then Err(KeyError)
    else Ok(MergeField(existing, incoming))
  }

  /** `Context.add_contact` exactly as written: it raises when the existing contact holds
      a falsy field that the new contact does not carry at all. */
  function AddContactAsWritten(cs: seq<Contact>, c: Contact): (r: Result<seq<Contact>, MergeError>)
    ensures r.Err? <==> exists i | IsFirstMatch(cs, c, i) ::
      (cs[i].source == Some("") && c.source.None?) || (cs[i].name == Some("") && c.name.None?)
    ensures r.Ok? ==> r.value == AddContact(cs, c)
  {
    match FirstMatch(cs, c)
    case None =>
      forall j | 0 <= j < |cs| ensures !SameKey(cs[j], c) {
        KeyInKeys(cs, j);
      }
      Ok(cs + [c])
    case Some(i) =>
      assert forall i' | IsFirstMatch(cs, c, i') :: i' == i;
      match (MergeFieldAsWritten(cs[i].source, c.source), MergeFieldAsWritten(cs[i].name, c.name))
      case (Ok(_), Ok(_)) => Ok(AddContact(cs, c))
      case _ => Err(KeyError)
  }

  /** An e-mail found first with an all-blank name, `"Contact:  <sec@example.org>"`, and
      then bare in another file: the second `add_contact` raises instead of merging. */
  lemma AddContactAsWrittenRaises()
    ensures
      var found := Contact(25, "email", "sec@example.org", Some("SECURITY.md"), Some(""));
      var again := Contact(25, "email", "sec@example.org", Some("README.md"), None);
      && AddContactAsWritten([found], again).Err?
      && |AddContact([found], again)| == 1
      && AddContact([found], again)[0].name == Some("")
      && Truthy(AddContact([found], again)[0].source)
  {
    var found := Contact(25, "email", "sec@example.org", Some("SECURITY.md"), Some(""));
    var again := Contact(25, "email", "sec@example.org", Some("README.md"), None);
    assert IsFirstMatch([found], again, 0);
  }
}
