/** The driver (disclosurecheck/main.py): construction of a DisclosureCheck, the walk over
    related package URLs, the final clean-up, and the console report. */
module DisclosureCheck {
  import opened Base
  import opened Text
  import opened Ordering
  import opened PackageUrls
  import opened Contacts
  import opened AnalysisContext
  import Searchers
  import GitHub
  import Tidelift

  // ----- construction -----

  datatype Check = Check(purl: Purl, context: Context)

  datatype CheckError = ValueError

  /** `DisclosureCheck.__init__`: a missing purl is rejected; otherwise the check starts
      from an empty context for it. */
  function NewDisclosureCheck(purl: Option<Purl>): (r: Result<Check, CheckError>)
    ensures r.Err? <==> purl.None?
    ensures r.Ok? ==> r.value.purl == purl.value && NewContext(purl) == Ok(r.value.context)
  {
    match NewContext(purl)
    case Err(_) => Err(ValueError)
    case Ok(ctx) => Ok(Check(purl.value, ctx))
  }

  // ----- the related-purl walk -----

  predicate IsGitHub(p: Purl) {
    p.kind == "github"
  }

  /** The analyses of `ps`, one after another, up to the first that raises. */
  function Apply(step: (Purl, Context) -> Outcome, ps: seq<Purl>, ctx: Context): Outcome
    decreases |ps|
  {
    if ps == [] then Done(ctx)
    else match step(ps[0], ctx)
      case Raised(c) => Raised(c)
      case Done(c) => Apply(step, ps[1..], c)
  }

  /** The rest of a walk after an outcome: nothing more once an analysis raised. */
  function Resume(step: (Purl, Context) -> Outcome, ps: seq<Purl>, o: Outcome): Outcome {
    if o.Raised? then o else Apply(step, ps, o.ctx)
  }

  lemma {:induction false} ApplyAppend(step: (Purl, Context) -> Outcome, a: seq<Purl>, b: seq<Purl>, ctx: Context)
    ensures Apply(step, a + b, ctx) == Resume(step, b, Apply(step, a, ctx))
    decreases |a|
  {
    if a != [] {
      assert (a + b)[0] == a[0] && (a + b)[1..] == a[1..] + b;
      if step(a[0], ctx).Done? {
        ApplyAppend(step, a[1..], b, step(a[0], ctx).ctx);
      }
    } else {
      assert a + b == b;
    }
  }

  lemma ApplySnoc(step: (Purl, Context) -> Outcome, xs: seq<Purl>, x: Purl, ctx: Context)
    ensures Apply(step, xs + [x], ctx) == Resume(step, [x], Apply(step, xs, ctx))
  {
    ApplyAppend(step, xs, [x], ctx);
  }

  /** A walk still going takes one more purl by one more step. */
  lemma ApplyStep(step: (Purl, Context) -> Outcome, xs: seq<Purl>, x: Purl, ctx: Context)
    requires Apply(step, xs, ctx).Done?
    ensures Apply(step, xs + [x], ctx) == step(x, Apply(step, xs, ctx).ctx)
  {
    ApplySnoc(step, xs, x, ctx);
    var c := Apply(step, xs, ctx).ctx;
    assert [x][0] == x && [x][1..] == [];
    match step(x, c)
    case Raised(d) =>
    case Done(d) => assert Apply(step, [], d) == Done(d);
  }

  /** Once a walk has raised, more purls change nothing. */
  lemma ApplyStopsAtRaise(step: (Purl, Context) -> Outcome, a: seq<Purl>, b: seq<Purl>, ctx: Context)
    requires Apply(step, a, ctx).Raised?
    ensures Apply(step, a + b, ctx) == Apply(step, a, ctx)
  {
    ApplyAppend(step, a, b, ctx);
  }

  /** Every step keeps the contact keys unique, however it ends. */
  ghost predicate KeepsUniqueKeys(step: (Purl, Context) -> Outcome) {
    forall p: Purl, c: Context :: UniqueKeys(c.contacts) ==> UniqueKeys(step(p, c).ctx.contacts)
  }

  /** An invariant every step keeps holds after the walk. */
  lemma {:induction false} ApplyKeepsUniqueKeys(step: (Purl, Context) -> Outcome, ps: seq<Purl>, ctx: Context)
    requires KeepsUniqueKeys(step)
    requires UniqueKeys(ctx.contacts)
    ensures UniqueKeys(Apply(step, ps, ctx).ctx.contacts)
    decreases |ps|
  {
    if ps != [] && step(ps[0], ctx).Done? {
      ApplyKeepsUniqueKeys(step, ps[1..], step(ps[0], ctx).ctx);
    }
  }

  lemma FilterSnoc<T(!new)>(keep: T -> bool, xs: seq<T>, x: T)
    ensures Filter(keep, xs + [x]) == Filter(keep, xs) + (if keep(x) then [x] else [])
    decreases |xs|
  {
    if xs != [] {
      assert (xs + [x])[1..] == xs[1..] + [x];
      FilterSnoc(keep, xs[1..], x);
    }
  }

  /** `set(context.related_purls) - set(_related_purls_copy)`. */
  function Additional(after: seq<Purl>, snapshot: seq<Purl>): (r: seq<Purl>)
    ensures Distinct(r)
    ensures forall p :: p in r <==> p in after && p !in snapshot
  {
    Dedup(Filter((p: Purl) => p !in snapshot, after))
  }

  /** One pass of the walk: the GitHub purls of `ps`, in order, each analysed, until
      one analysis raises. `visited` ends with the purl whose analysis raised. */
  method Pass(ctx: Context, step: (Purl, Context) -> Outcome, ps: seq<Purl>) returns (r: Outcome, visited: seq<Purl>)
    ensures r == Apply(step, Filter(IsGitHub, ps), ctx)
    ensures r == Apply(step, visited, ctx)
    ensures IsPrefix(visited, Filter(IsGitHub, ps))
    ensures r.Done? ==> visited == Filter(IsGitHub, ps)
  {
    r := Done(ctx);
    visited := [];
    var i := 0;
    while i < |ps| && r.Done?
      invariant 0 <= i <= |ps|
      invariant visited == Filter(IsGitHub, ps[..i])
      invariant r == Apply(step, visited, ctx)
    {
      assert ps[..i + 1] == ps[..i] + [ps[i]];
      FilterSnoc(IsGitHub, ps[..i], ps[i]);
      if IsGitHub(ps[i]) {
        ApplyStep(step, visited, ps[i], ctx);
        r := step(ps[i], r.ctx);
        visited := visited + [ps[i]];
      }
      i := i + 1;
    }
    assert Filter(IsGitHub, ps) == visited + Filter(IsGitHub, ps[i..]) by {
      FilterAppend(IsGitHub, ps[..i], ps[i..]);
      assert ps[..i] + ps[i..] == ps;
    }
    ApplyAppend(step, visited, Filter(IsGitHub, ps[i..]), ctx);
    if r.Done? {
      assert ps[i..] == [];
    }
  }

  /** `a` is an initial part of `b`. */
  predicate IsPrefix<T(==)>(a: seq<T>, b: seq<T>) {
    |a| <= |b| && b[..|a|] == a
  }

  lemma {:induction false} FilterAppend<T(!new)>(keep: T -> bool, a: seq<T>, b: seq<T>)
    ensures Filter(keep, a + b) == Filter(keep, a) + Filter(keep, b)
    decreases |a|
  {
    if a != [] {
      assert (a + b)[0] == a[0] && (a + b)[1..] == a[1..] + b;
      FilterAppend(keep, a[1..], b);
    } else {
      assert a + b == b;
    }
  }

  /** The two passes of `execute` over related purls: first the purls known before the
      walk, then the ones the first pass added; only GitHub purls are analysed, and
      the walk ends at the first analysis that raises. */
  method WalkRelated(ctx: Context, step: (Purl, Context) -> Outcome) returns (r: Outcome, visited: seq<Purl>)
    ensures var first := Filter(IsGitHub, ctx.relatedPurls);
      var o := Apply(step, first, ctx);
      r == Resume(step, Filter(IsGitHub, Additional(o.ctx.relatedPurls, ctx.relatedPurls)), o)
    ensures r == Apply(step, visited, ctx)
    ensures forall p :: p in visited ==> IsGitHub(p)
    ensures r.Done? ==> forall p :: p in ctx.relatedPurls && IsGitHub(p) ==> p in visited
    ensures KeepsUniqueKeys(step) && UniqueKeys(ctx.contacts) ==> UniqueKeys(r.ctx.contacts)
  {
    var mid, first := Pass(ctx, step, ctx.relatedPurls);
    if mid.Raised? {
      r, visited := mid, first;
    } else {
      var second;
      r, second := Pass(mid.ctx, step, Additional(mid.ctx.relatedPurls, ctx.relatedPurls));
      ApplyAppend(step, first, second, ctx);
      visited := first + second;
    }
    assert forall p :: p in visited ==> IsGitHub(p) by {
      forall p | p in visited ensures IsGitHub(p) {
        if p in first {
          assert p in Filter(IsGitHub, ctx.relatedPurls) by {
            var k :| 0 <= k < |first| && first[k] == p;
            assert Filter(IsGitHub, ctx.relatedPurls)[k] == p;
          }
        } else {
          var second := visited[|first|..];
          assert p in second;
          var k :| 0 <= k < |second| && second[k] == p;
          assert Filter(IsGitHub, Additional(mid.ctx.relatedPurls, ctx.relatedPurls))[k] == p;
        }
      }
    }
    if KeepsUniqueKeys(step) && UniqueKeys(ctx.contacts) {
      ApplyKeepsUniqueKeys(step, visited, ctx);
    }
  }

  /** What a related GitHub purl's analyses see from outside. */
  datatype RelatedInputs = RelatedInputs(
    token: Option<string>,
    github: Purl -> GitHub.Remote,
    tidelift: Purl -> Tidelift.TideliftRemote,
    x: Searchers.Extractors,
    normalize: Purl -> Purl)

  /** `analyze_github` followed by `analyze_tidelift` on one related purl; an exception
      in the first skips the second. */
  function AnalyzeRelated(prog: Program, inputs: RelatedInputs, p: Purl, ctx: Context): (r: Outcome)
    ensures OnlyAdds(inputs.github(p).insights) ==>
      && r.ctx.packageUrl == ctx.packageUrl
      && (UniqueKeys(ctx.contacts) ==> UniqueKeys(r.ctx.contacts))
      && Keys(ctx.contacts) <= Keys(r.ctx.contacts)
    ensures GitHub.Analyze(prog, Some(p), inputs.token, inputs.github(p), inputs.x, inputs.normalize, ctx).Raised? ==>
      r == GitHub.Analyze(prog, Some(p), inputs.token, inputs.github(p), inputs.x, inputs.normalize, ctx)
    ensures Tidelift.Raises(p, inputs.token, inputs.tidelift(p)) ==> r.Raised?
  {
    match GitHub.Analyze(prog, Some(p), inputs.token, inputs.github(p), inputs.x, inputs.normalize, ctx)
    case Raised(c) => Raised(c)
    case Done(c) => Tidelift.Analyze(Some(p), inputs.token, inputs.tidelift(p), c)
  }

  /** The step the walk applies to each related GitHub purl. */
  function RelatedStep(prog: Program, inputs: RelatedInputs): (Purl, Context) -> Outcome {
    (p: Purl, c: Context) => AnalyzeRelated(prog, inputs, p, c)
  }

  /** The last step of `execute`: `clean_contacts` (an input here) and `context.sort()`. */
  function Finish(ctx: Context, clean: seq<Contact> -> seq<Contact>): (r: Context)
    ensures r.packageUrl == ctx.packageUrl
    ensures Sorted(ContactLess, r.contacts) && Distinct(r.contacts)
    ensures forall c :: c in r.contacts <==> c in clean(ctx.contacts)
    ensures Sorted(LexLess, r.notes) && Distinct(r.notes)
    ensures forall n :: n in r.notes <==> n in ctx.notes
    ensures Sorted(PurlLess, r.relatedPurls) && Distinct(r.relatedPurls)
    ensures forall p :: p in r.relatedPurls <==> p in ctx.relatedPurls
  {
    AnalysisContext.Sort(ctx.(contacts := clean(ctx.contacts)))
  }

  /** The analyses `execute` runs around the walk, as inputs: the type's own analyzer
      with the package-agnostic ones and the fallback, and then the overrides. */
  datatype Phases = Phases(
    collect: Context -> Context,
    overrides: Context -> Context,
    clean: seq<Contact> -> seq<Contact>)

  /** `execute`: collect, walk the related purls, apply overrides, clean and sort.
      An exception in the walk leaves `execute` at once: `completed` is false and the
      context is the one the raising analysis left, neither overridden, cleaned nor
      sorted; the report then prints that context. */
  method Execute(prog: Program, check: Check, phases: Phases, inputs: RelatedInputs)
    returns (r: Context, visited: seq<Purl>, completed: bool)
    ensures forall p :: p in visited ==> IsGitHub(p)
    ensures var walked := Apply(RelatedStep(prog, inputs), visited, phases.collect(check.context));
      && (completed <==> walked.Done?)
      && (completed ==> r == Finish(phases.overrides(walked.ctx), phases.clean))
      && (!completed ==> r == walked.ctx)
    ensures completed ==> Sorted(ContactLess, r.contacts) && Distinct(r.contacts)
    ensures completed ==> Sorted(LexLess, r.notes) && Distinct(r.notes)
    ensures completed ==> Sorted(PurlLess, r.relatedPurls) && Distinct(r.relatedPurls)
    ensures completed ==> forall p :: p in phases.collect(check.context).relatedPurls && IsGitHub(p) ==> p in visited
  {
    var collected := phases.collect(check.context);
    var walked;
    walked, visited := WalkRelated(collected, RelatedStep(prog, inputs));
    if walked.Raised? {
      r, completed := walked.ctx, false;
    } else {
      r, completed := Finish(phases.overrides(walked.ctx), phases.clean), true;
    }
  }

  // ----- the console report -----

  datatype Label = High | Medium | Low | Generic | Unknown

  /** The label printed for a priority. */
  function PriorityLabel(priority: int): (l: Label)
    ensures l == High <==> priority < 20
    ensures l == Medium <==> 20 <= priority < 60
    ensures l == Low <==> 60 <= priority < 100
    ensures l == Generic <==> priority == 100
    ensures l == Unknown <==> priority > 100
  {
    if priority < 20 then High
    else if priority < 60 then Medium
    else if priority < 100 then Low
    else if priority == 100 then Generic
    else Unknown
  }

  function LabelRank(l: Label): nat {
    match l
    case High => 0
    case Medium => 1
    case Low => 2
    case Generic => 3
    case Unknown => 4
  }

  /** A more urgent priority (a smaller number) never gets a less urgent label. */
  lemma LabelMonotone(p: int, q: int)
    requires p <= q
    ensures LabelRank(PriorityLabel(p)) <= LabelRank(PriorityLabel(q))
  {
  }

  function LabelText(l: Label): string {
    match l
    case High => "High"
    case Medium => "Medium"
    case Low => "Low"
    case Generic => "Generic"
    case Unknown => "Unknown"
  }

  const TideliftRendering: string := "Tidelift Security <security@tidelift.com>"

  /** The contact types the report knows how to show. */
  const ShownKinds: set<string> := {"email", "fallback_email", "github_pvr", "nuget_contact", "tidelift", "url", "fallback_url", "social"}

  /** The NuGet rendering as written: the closing '>' is missing. */
  function NuGetRenderingAsWritten(value: string): string {
    "NuGet 'Contact Owner' Link <" + value
  }

  function NuGetRendering(value: string): string {
    "NuGet 'Contact Owner' Link <" + value + ">"
  }

  /** The text shown for a contact as written. */
  function RenderAsWritten(c: Contact): (r: string)
    ensures c.kind == "nuget_contact" ==> r == NuGetRenderingAsWritten(c.value)
    ensures c.kind != "nuget_contact" ==> r == Render(c)
  {
    if c.kind == "nuget_contact" then NuGetRenderingAsWritten(c.value) else Render(c)
  }

  /** The text shown for a contact, with every wrapper closed; an unknown type shows
      nothing. The report skips a contact exactly when this is empty. */
  function Render(c: Contact): (r: string)
    ensures r == "" <==>
      || c.kind !in ShownKinds
      || (c.value == "" && (c.kind in {"url", "fallback_url", "social"}
                            || (c.kind in {"email", "fallback_email"} && !Truthy(c.name))))
    ensures c.kind in ShownKinds && c.kind != "tidelift" ==> EndsWith(r, c.value) || EndsWith(r, c.value + ">")
  {
    if c.kind == "email" || c.kind == "fallback_email" then
      if Truthy(c.name) then c.name.value + " <" + c.value + ">" else c.value
    else if c.kind == "github_pvr" then "GitHub Private Vulnerability Reporting <" + c.value + ">"
    else if c.kind == "nuget_contact" then NuGetRendering(c.value)
    else if c.kind == "tidelift" then TideliftRendering
    else if c.kind == "url" || c.kind == "fallback_url" || c.kind == "social" then c.value
    else ""
  }

  lemma EndsWithAppend(a: string, b: string)
    ensures EndsWith(a + b, b)
  {
    assert (a + b)[|a + b| - |b|..] == b;
  }

  /** A named e-mail contact shows as the name followed by the address in angle
      brackets; an unnamed one as the bare address. */
  lemma RenderEmail(c: Contact)
    requires c.kind == "email" || c.kind == "fallback_email"
    ensures Truthy(c.name) ==> StartsWith(Render(c), c.name.value) && EndsWith(Render(c), " <" + c.value + ">")
    ensures !Truthy(c.name) ==> Render(c) == c.value
  {
    if Truthy(c.name) {
      var r := Render(c);
      assert r == c.name.value + (" <" + c.value + ">");
      EndsWithAppend(c.name.value, " <" + c.value + ">");
      assert r[..|c.name.value|] == c.name.value;
    }
  }

  /** Reporting-form and NuGet links show the value as the last thing, in angle brackets. */
  lemma RenderLink(c: Contact)
    requires c.kind == "github_pvr" || c.kind == "nuget_contact"
    ensures EndsWith(Render(c), "<" + c.value + ">")
  {
    var r := Render(c);
    if c.kind == "github_pvr" {
      assert r == "GitHub Private Vulnerability Reporting " + ("<" + c.value + ">");
      EndsWithAppend("GitHub Private Vulnerability Reporting ", "<" + c.value + ">");
    } else {
      assert r == "NuGet 'Contact Owner' Link " + ("<" + c.value + ">");
      EndsWithAppend("NuGet 'Contact Owner' Link ", "<" + c.value + ">");
    }
  }

  /** Plain links show the bare value; Tidelift shows its fixed address; a type the
      report does not know shows nothing. */
  lemma RenderPlain(c: Contact)
    ensures c.kind == "url" || c.kind == "fallback_url" || c.kind == "social" ==> Render(c) == c.value
    ensures c.kind == "tidelift" ==> Render(c) == TideliftRendering
    ensures c.kind !in ShownKinds ==> Render(c) == ""
  {
  }

  /** Every wrapped rendering is closed. */
  lemma WrappedRenderingsClose(c: Contact)
    requires c.kind in {"github_pvr", "nuget_contact", "tidelift"} || (c.kind in {"email", "fallback_email"} && Truthy(c.name))
    ensures EndsWith(Render(c), ">")
  {
    var r := Render(c);
    if c.kind == "tidelift" {
      assert r[|r| - 1..] == ">";
    } else {
      if c.kind == "email" || c.kind == "fallback_email" {
        RenderEmail(c);
      } else {
        RenderLink(c);
      }
      assert r[|r| - 1] == '>';
      assert r[|r| - 1..] == [r[|r| - 1]];
    }
  }

  /** The NuGet rendering as written leaves its bracket open. */
  lemma NuGetRenderingLeftOpen()
    ensures var c := Contact(50, "nuget_contact", "https://www.nuget.org/packages/x/ContactOwners", None, None);
      !EndsWith(RenderAsWritten(c), ">") && EndsWith(Render(c), ">")
  {
    var c := Contact(50, "nuget_contact", "https://www.nuget.org/packages/x/ContactOwners", None, None);
    WrappedRenderingsClose(c);
    var w := RenderAsWritten(c);
    assert w[|w| - 1] == 's';
    assert w[|w| - 1..] == [w[|w| - 1]];
  }

  /** The text shown for a contact by the chosen reading of the program. */
  function Rendering(prog: Program, c: Contact): (r: string)
    ensures prog == Intended || c.kind != "nuget_contact" ==> r == Render(c)
    ensures prog == AsWritten && c.kind == "nuget_contact" ==> r == NuGetRenderingAsWritten(c.value)
  {
    if prog == AsWritten then RenderAsWritten(c) else Render(c)
  }

  /** The bullet line printed for a contact. */
  function ContactLine(prog: Program, c: Contact): string {
    "  [bold yellow]*[/bold yellow] (" + LabelText(PriorityLabel(c.priority)) + ") " + Rendering(prog, c)
  }

  const NoContactsLine: string := "  [cyan]" + "Sorry, no contacts could be found." + "[/cyan]"

  /** Each contact's rendering, in order. */
  function Renders(prog: Program, cs: seq<Contact>): (r: seq<string>)
    ensures |r| == |cs| && forall k :: 0 <= k < |cs| ==> r[k] == Rendering(prog, cs[k])
  {
    seq(|cs|, k requires 0 <= k < |cs| => Rendering(prog, cs[k]))
  }

  lemma RendersMembers(prog: Program, cs: seq<Contact>)
    ensures forall s :: s in Renders(prog, cs) <==> exists c :: c in cs && Rendering(prog, c) == s
  {
    var rs := Renders(prog, cs);
    forall s | s in rs ensures exists c :: c in cs && Rendering(prog, c) == s {
      var k :| 0 <= k < |rs| && rs[k] == s;
      assert cs[k] in cs;
    }
    forall c | c in cs ensures Rendering(prog, c) in rs {
      var k :| 0 <= k < |cs| && cs[k] == c;
      assert rs[k] == Rendering(prog, c);
    }
  }

  predicate NonEmpty(s: string) {
    s != ""
  }

  lemma DedupSnoc<T(!new)>(xs: seq<T>, x: T)
    ensures Dedup(xs + [x]) == if x in Dedup(xs) then Dedup(xs) else Dedup(xs) + [x]
  {
    assert (xs + [x])[..|xs|] == xs;
  }

  /** The renderings printed in the first `n` loop steps: one is printed when it is
      not empty and not printed before. */
  function FirstSeen(rs: seq<string>, n: nat): seq<string>
    requires n <= |rs|
    decreases n
  {
    if n == 0 then []
    else
      var prev := FirstSeen(rs, n - 1);
      var c := rs[n - 1];
      if c != "" && c !in prev then prev + [c] else prev
  }

  /** The printed renderings are the distinct non-empty ones, in first-seen order. */
  lemma {:induction false} FirstSeenIsDedup(rs: seq<string>, n: nat)
    requires n <= |rs|
    ensures FirstSeen(rs, n) == Dedup(Filter(NonEmpty, rs[..n]))
    decreases n
  {
    if n > 0 {
      var init := rs[..n - 1];
      var c := rs[n - 1];
      assert rs[..n] == init + [c];
      FirstSeenIsDedup(rs, n - 1);
      FilterSnoc(NonEmpty, init, c);
      if c != "" {
        DedupSnoc(Filter(NonEmpty, init), c);
      } else {
        assert Filter(NonEmpty, rs[..n]) == Filter(NonEmpty, init) + [];
        assert Filter(NonEmpty, init) + [] == Filter(NonEmpty, init);
      }
    } else {
      assert rs[..n] == [];
    }
  }

  /** `cs[i]` is the first contact of `cs` whose rendering is `s`. */
  predicate FirstRenderedAt(prog: Program, cs: seq<Contact>, s: string, i: int) {
    0 <= i < |cs| && Rendering(prog, cs[i]) == s
    && forall j :: 0 <= j < i ==> Rendering(prog, cs[j]) != s
  }

  /** The `contact_seen` loop of `print_results_console` on the renderings: a rendering
      is kept unless it is empty or was kept before; `firsts[k]` is the step at which
      `shown[k]` was kept. */
  method KeepFirstSeen(rs: seq<string>) returns (shown: seq<string>, firsts: seq<nat>)
    ensures shown == FirstSeen(rs, |rs|)
    ensures |firsts| == |shown|
    ensures forall k :: 0 <= k < |shown| ==>
      && firsts[k] < |rs| && rs[firsts[k]] == shown[k]
      && forall j :: 0 <= j < firsts[k] ==> rs[j] != shown[k]
  {
    var seen: set<string> := {};
    shown := [];
    firsts := [];
    var i := 0;
    while i < |rs|
      invariant 0 <= i <= |rs|
      invariant shown == FirstSeen(rs, i)
      invariant seen == set s | s in shown
      invariant forall j :: 0 <= j < i && rs[j] != "" ==> rs[j] in shown
      invariant |firsts| == |shown|
      invariant forall k :: 0 <= k < |shown| ==>
        && firsts[k] < i && rs[firsts[k]] == shown[k]
        && forall j :: 0 <= j < firsts[k] ==> rs[j] != shown[k]
    {
      var c := rs[i];
      if c != "" && c !in seen {
        seen := seen + {c};
        shown := shown + [c];
        firsts := firsts + [i];
      }
      i := i + 1;
    }
  }

  /** The bullet loop of `print_results_console`: a contact's rendering is printed
      unless it is empty or was printed before, so each printed line carries the
      priority label of the first contact with that rendering. */
  method ShowEach(prog: Program, cs: seq<Contact>) returns (shown: seq<string>, lines: seq<string>)
    ensures shown == FirstSeen(Renders(prog, cs), |cs|)
    ensures |lines| == |shown|
    ensures forall k :: 0 <= k < |shown| ==>
      exists i :: FirstRenderedAt(prog, cs, shown[k], i) && lines[k] == ContactLine(prog, cs[i])
  {
    var rs := Renders(prog, cs);
    var firsts;
    shown, firsts := KeepFirstSeen(rs);
    lines := seq(|firsts|, k requires 0 <= k < |firsts| => ContactLine(prog, cs[firsts[k]]));
    forall k | 0 <= k < |shown|
      ensures exists i :: FirstRenderedAt(prog, cs, shown[k], i) && lines[k] == ContactLine(prog, cs[i])
    {
      assert FirstRenderedAt(prog, cs, shown[k], firsts[k]);
    }
  }

  lemma PrintedMembers(prog: Program, cs: seq<Contact>)
    ensures forall s :: s in Dedup(Filter(NonEmpty, Renders(prog, cs))) <==>
      s != "" && exists c :: c in cs && Rendering(prog, c) == s
  {
    RendersMembers(prog, cs);
  }

  /** The contact section of `print_results_console`: each non-empty rendering is shown
      once, with the label of its first contact, and the apology appears exactly when
      nothing was shown. */
  method PrintContacts(prog: Program, cs: seq<Contact>) returns (shown: seq<string>, lines: seq<string>)
    ensures shown == Dedup(Filter(NonEmpty, Renders(prog, cs)))
    ensures Distinct(shown)
    ensures forall s :: s in shown <==> s != "" && exists c :: c in cs && Rendering(prog, c) == s
    ensures shown == [] <==> lines == [NoContactsLine]
    ensures shown != [] ==> |lines| == |shown|
    ensures shown != [] ==> forall k :: 0 <= k < |shown| ==>
      exists i :: FirstRenderedAt(prog, cs, shown[k], i) && lines[k] == ContactLine(prog, cs[i])
  {
    shown, lines := ShowEach(prog, cs);
    FirstSeenIsDedup(Renders(prog, cs), |cs|);
    assert Renders(prog, cs)[..|cs|] == Renders(prog, cs);
    PrintedMembers(prog, cs);
    if shown != [] {
      var i :| FirstRenderedAt(prog, cs, shown[0], i) && lines[0] == ContactLine(prog, cs[i]);
      ContactLineIsNotApology(prog, cs[i]);
    } else {
      lines := lines + [NoContactsLine];
    }
  }

  lemma ContactLineIsNotApology(prog: Program, c: Contact)
    ensures [ContactLine(prog, c)] != [NoContactsLine]
  {
    assert ContactLine(prog, c)[3] == 'b';
    assert NoContactsLine[3] == 'c';
  }

  /** The related-projects section: each other purl's string once; a notice when
      there is none. */
  function RelatedListing(own: Purl, related: seq<Purl>): (r: seq<string>)
    ensures Distinct(r)
    ensures forall s :: s in r <==> s != PurlString(own) && exists p :: p in related && PurlString(p) == s
    ensures r == [] <==> forall p :: p in related ==> PurlString(p) == PurlString(own)
  {
    var r := Dedup(OtherPurlStrings(related, own));
    forall p | p in related && PurlString(p) != PurlString(own) ensures PurlString(p) in r {
    }
    assert r != [] ==> exists p :: p in related && PurlString(p) != PurlString(own) by {
      if r != [] {
        assert r[0] in r;
      }
    }
    r
  }
}
