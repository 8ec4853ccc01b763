# disclosure-check, modelled in Dafny

This project models the core of the OpenSSF Vulnerability Disclosure Mechanism
Detector (`disclosurecheck`). The detector takes a package URL (purl) and collects
the ways a vulnerability could be reported for it, called *contacts*. It gathers
them from GitHub, Tidelift, libraries.io and the package's own files. It then
follows related GitHub repositories, sorts the results and prints them.

The model has one Dafny module per source file, plus a few shared support modules.

- `Base`, `Text` and `Ordering` hold the support definitions.
  - `Base` has `Option`, `Result` and Python truthiness.
  - `Text` has string helpers: `Split`, `Join`, `Replace`, `Strip`, `Lower`, `Basename`.
  - `Ordering` has generic sorting, de-duplication and Python's string order.
- `PackageUrls` defines the purl record, its string form and the order `sorted()` puts purls in.
- `Contacts` is the contact record and `Context.add_contact`, the merge-on-insert that keeps one contact per (type, value) key.
- `AnalysisContext` is `util/context.py`: construction, `sort`, `clean_note` and `to_dict`.
- `UrlRules` and `Searchers` are `util/searchers.py`. `UrlRules` holds the URL regular expressions as predicates and `Searchers` holds `find_contacts`.
- `GitHub`, `Tidelift`, `LibrariesIo` and `PackageContent` are the four collectors.
- `DisclosureCheck` is `main.py`: construction, `execute` and the console report.

Nothing leaves the model as a side effect. Every remote answer is an input value:
HTTP status codes and bodies, GitHub API records, code-search hits, the download
outcome and file contents. Every collector is a pure function from its inputs and a
`Context` (or its contact list) to a new one, or to an `Outcome`. A Python dict contact is a
`Contact(priority, kind, value, source, name)` datatype. An optional key is an
`Option`: `None` means the key is absent, and `Some("")` means it is present but falsy.

A Python exception is an `Outcome`: `Done(ctx)` when the operation returns and
`Raised(ctx)` when it raises. In both cases `ctx` is the context as far as the
operation had changed it, because Python changes the context in place. The GitHub
and Tidelift collectors and the related-purl walk return an `Outcome`.

The composite operations take a `Program` argument. `AsWritten` follows the
source's loops and contact rendering as they are. `Intended` follows the
corrections that the findings below describe.

## Model

| member | source | states |
|---|---|---|
| Contacts.FirstMatch | disclosurecheck/util/context.py:49-51 | the index `add_contact` merges into is the first contact with the same type and value; there is none exactly when the key is new |
| Contacts.MergedParts | disclosurecheck/util/context.py:61-62 | merging two comma lists gives the sorted, distinct, non-empty pieces of either list, none of which contains a comma |
| Contacts.MergeText | disclosurecheck/util/context.py:61-64 | the merged field splits back into exactly the merged pieces; when there are no pieces the old value is kept; a non-empty old value never becomes empty |
| Contacts.MergeField | disclosurecheck/util/context.py:58-67 | a truthy field stays truthy; two truthy values are list-merged; an old falsy value is replaced only by a truthy new one |
| Contacts.Merge | disclosurecheck/util/context.py:53-67 | the merged contact keeps its key and takes the larger of the two priorities |
| Contacts.AddContact | disclosurecheck/util/context.py:44-72 | a new key is appended at the end; a known key merges into its first occurrence and leaves every other entry untouched; the key set grows by exactly the new key; unique keys stay unique |
| Contacts.AddContactAt | disclosurecheck/util/context.py:49-67 | adding a contact whose key is first held at position `i` replaces exactly that entry by the merge of it and the new contact |
| Contacts.AddContactTwiceNew | disclosurecheck/util/context.py:44-72 | two contacts with the same new key, added one after the other, leave the list with one more entry, their merge, at the end |
| Contacts.AddAll | disclosurecheck/util/context.py:44-72 | adding several contacts adds exactly their keys, keeps keys unique, and never changes the key at an existing position |
| Contacts.AddContactIdempotent | disclosurecheck/util/context.py:44-72 | adding the same contact twice has the same effect as adding it once, given canonical source and name fields |
| Contacts.MergeTextAgain | disclosurecheck/util/context.py:61-64 | merging the same incoming list a second time changes nothing |
| Contacts.MergeFieldAgain | disclosurecheck/util/context.py:58-67 | for a canonical incoming field (sorted, distinct, non-empty comma parts), merging it a second time changes nothing |
| Contacts.AddContactAsWritten | disclosurecheck/util/context.py:58-67 | as written, the merge fails exactly when an existing field is present but falsy and the new contact lacks that key; otherwise it agrees with `AddContact` |
| Contacts.AddContactAsWrittenRaises | disclosurecheck/util/context.py:66 | a concrete pair of contacts on which the code as written raises `KeyError`, while the corrected merge keeps one contact |
| AnalysisContext.NewContext | disclosurecheck/util/context.py:13-20 | construction fails exactly when no purl is given; otherwise notes, related purls and contacts start empty |
| AnalysisContext.ContactLessIsStrictOrder | disclosurecheck/util/context.py:24 | ordering contacts by (priority, type, value) is a strict order |
| AnalysisContext.SortContacts | disclosurecheck/util/context.py:23-24 | sorted contacts are ordered by (priority, type, value), distinct, and have exactly the input's members |
| AnalysisContext.Sort | disclosurecheck/util/context.py:22-28 | contacts, notes and related purls each come out sorted and duplicate-free with the same members; the package URL is unchanged |
| AnalysisContext.SortIdempotent | disclosurecheck/util/context.py:22-28 | sorting an already sorted context changes nothing, when no two contacts share a key |
| AnalysisContext.StripMarkup | disclosurecheck/util/context.py:32 | removing `[...]` segments leaves no `[` followed later by `]`; it only deletes characters and leaves markup-free text alone |
| AnalysisContext.StripMarkupPlain | disclosurecheck/util/context.py:32 | text without `[` in front of the rest passes through unchanged |
| AnalysisContext.StripMarkupSegment | disclosurecheck/util/context.py:32 | a leading `[...]` whose inside has no `]` is removed entirely |
| AnalysisContext.StripMarkupUnclosed | disclosurecheck/util/context.py:32 | a `[` with no `]` after it stays in the text |
| AnalysisContext.StripMarkupRemovesSegment | disclosurecheck/util/context.py:32 | in `x[m]y` with no `[` in `x` and no `]` in `m`, the segment `[m]` is removed and `x` kept, so the shortest bracketed segment is what goes |
| AnalysisContext.ReplaceKeepsNoMarkup | disclosurecheck/util/context.py:32 | replacing with text free of brackets cannot create markup |
| AnalysisContext.CleanNote | disclosurecheck/util/context.py:30-34 | an empty note stays empty; a cleaned note has no markup; a note with no markup and no double space is unchanged; a non-empty note is its markup-free text split at double spaces and joined with single spaces |
| AnalysisContext.OtherPurlStrings | disclosurecheck/util/context.py:40 | the strings listed are exactly the string forms of related purls that differ from the package's own |
| AnalysisContext.ToDict | disclosurecheck/util/context.py:36-42 | the dictionary keeps the contacts, lists the other related purls sorted and distinct, and holds the cleaned notes sorted, as a permutation |
| PackageUrls.PurlString | disclosurecheck/util/context.py:38 | the string form of a purl begins with `pkg:` |
| PackageUrls.PurlLessIsStrictTotalOrder | disclosurecheck/util/context.py:26 | the order `sorted()` puts purls in is a strict total order |
| PackageUrls.SortedPurls | disclosurecheck/util/context.py:26 | `sorted(set(purls))` is sorted, distinct and has the same members |
| Ordering.LexLessIsStrictTotalOrder | disclosurecheck/util/context.py:25 | Python's string comparison is a strict total order |
| Ordering.SortedListingUnique | disclosurecheck/util/context.py:25-26 | two sorted, duplicate-free listings of the same members under a total order are equal |
| Searchers.ExtractEmails | disclosurecheck/util/searchers.py:109-114 | exactly the extracted candidates the validator accepts are yielded |
| Searchers.NamedCandidates | disclosurecheck/util/searchers.py:29-30 | every named match becomes its stripped name and its address with `[at]` replaced by `@` and stripped |
| Searchers.NamedCandidatesAddresses | disclosurecheck/util/searchers.py:28-32 | the addresses tried from the set of named matches are exactly the normalized addresses of those matches |
| Searchers.BareCandidatesAddresses | disclosurecheck/util/searchers.py:44-45 | the bare candidates carry exactly the extracted addresses |
| Searchers.AddressCandidatesAddresses | disclosurecheck/util/searchers.py:28-45 | the addresses considered are the named ones together with the bare ones found in the text and its `[at]`-rewritten copy |
| Searchers.EmailContacts | disclosurecheck/util/searchers.py:25-47 | each e-mail contact has the caller's priority and the file as source, and no address seen before is added again |
| Searchers.EmailContactsValues | disclosurecheck/util/searchers.py:25-47 | the addresses reported are exactly the candidate addresses not already found |
| Searchers.EmailContactsDistinct | disclosurecheck/util/searchers.py:31-32 | no address is reported twice, because of the `found_contacts` set |
| Searchers.EmailContactsFromCandidates | disclosurecheck/util/searchers.py:29-47 | every e-mail contact carries the name and address of one of the candidates |
| Searchers.TideliftMention | disclosurecheck/util/searchers.py:49-57 | the Tidelift contact is added exactly when the text mentions `tidelift.com`, with priority 5 and the sanitized URL as source |
| Searchers.UrlPriority | disclosurecheck/util/searchers.py:62-67 | a URL naming security, vulnerability or reporting gets 11; otherwise a URL found in an org `.github` repository gets 50; any other URL gets 70 |
| Searchers.UrlContact | disclosurecheck/util/searchers.py:60-106 | a URL yields a contact exactly when it starts with `http` and is not a bare profile, a tags page or ignored; an advisory form gives a PVR contact at priority 0; the Tidelift security page gives the Tidelift contact; anything else gives a `url` contact at its computed priority |
| Searchers.UrlContactsMembership | disclosurecheck/util/searchers.py:60-106 | a contact comes from the URL loop exactly when some found URL produces it |
| Searchers.UrlContacts | disclosurecheck/util/searchers.py:60-106 | the URL loop yields at most one contact per found URL, each sourced from the searched file, without a name, and of one of the shapes the loop can add: `github_pvr` at priority 0, the Tidelift contact at priority 5, or a `url` at priority 11, 50 or 70 |
| Searchers.Discovered | disclosurecheck/util/searchers.py:23-106 | everything found is an e-mail, Tidelift, PVR or url contact; e-mails carry the caller's priority and the file as source; a `tidelift.com` mention always yields the Tidelift contact |
| Searchers.DiscoveredReportsEveryAddress | disclosurecheck/util/searchers.py:28-47 | every candidate address is reported |
| Searchers.DiscoveredEmailsAreAddresses | disclosurecheck/util/searchers.py:28-47 | every reported e-mail is one of the candidate addresses |
| Searchers.DiscoveredEmailsDistinct | disclosurecheck/util/searchers.py:25-47 | no two reported e-mail contacts share an address |
| Searchers.FindContacts | disclosurecheck/util/searchers.py:23-106 | the context gains exactly the keys of the discovered contacts, keeps keys unique, and no existing entry changes its key |
| GitHub.GitHubToken | disclosurecheck/collectors/github.py:52-72 | a token is available exactly when the variable is set and non-empty and neither quota is exhausted |
| GitHub.StateNotes | disclosurecheck/collectors/github.py:98-105 | one note per fork or archived flag, and the fork or archive note appears exactly when the flag is set |
| GitHub.RenamedIgnoresCase | disclosurecheck/collectors/github.py:110 | the rename test gives the same answer when the purl, the repository, or both are case-folded |
| GitHub.CheckPvr | disclosurecheck/collectors/github.py:130-158 | a 200 from the API decides by its `enabled` flag; any other status falls back to the advisories page and its "Report a vulnerability" text; a found form is a PVR contact at priority 0 whose source is the last URL requested |
| GitHub.AdvisoryFormRecognised | disclosurecheck/collectors/github.py:140 | the advisory form URL the collector builds is the one the URL rules accept as a PVR form |
| GitHub.SubstituteName | disclosurecheck/collectors/github.py:171-172 | every `%name%` is replaced by the package name, and a file name without the marker is unchanged |
| GitHub.Targets | disclosurecheck/collectors/github.py:169-175 | every listed file is probed in the repository and, when the org `.github` repository exists, there too, at the given priority and on the right branch |
| GitHub.ProbeList | disclosurecheck/collectors/github.py:169-185 | the finished `_args` list holds (number of security paths + number of other paths) probes, twice that when the org `.github` repository exists, each at priority 10 or 35 |
| GitHub.TargetsNameKnownFiles | disclosurecheck/collectors/github.py:169-184 | every probed file name comes from a listed path |
| GitHub.Dispatched | disclosurecheck/collectors/github.py:169-185 | the probes dispatched are the security files once and then those plus the other files, since the second pool reuses `_args`; all of them come from the probe list |
| GitHub.SecurityProbesDispatchedTwice | disclosurecheck/collectors/github.py:176-185 | every security-file probe is dispatched at least twice |
| GitHub.SecurityMdUrl | disclosurecheck/collectors/github.py:264-276 | a raw URL is built exactly for a GitHub purl with a namespace; it starts with the raw-content host and ends with the file name; with slash-free namespace, name and branch, the path after the host splits into those three and then the file path's segments |
| GitHub.CheckGithubSecurityMd | disclosurecheck/collectors/github.py:259-281 | an unusable purl or a failed fetch leaves the contacts alone; otherwise the contacts gain exactly what `find_contacts` discovers in the file |
| GitHub.CheckFromArgs | disclosurecheck/collectors/github.py:244-256 | empty arguments do nothing; a missing branch defaults to `master` and a missing priority to 25 |
| GitHub.RunProbes | disclosurecheck/collectors/github.py:176-185 | running the probes keeps keys unique, and the keys gained are exactly the keys each probe finds in its fetched file |
| GitHub.RunProbesOrderFree | disclosurecheck/collectors/github.py:176-185 | the keys found do not depend on the order the pool runs the probes in, nor on how often each is dispatched |
| GitHub.DispatchedFindsProbeListKeys | disclosurecheck/collectors/github.py:169-185 | dispatching the security probes twice finds the same keys as running each listed probe once |
| GitHub.ScanAsWritten | disclosurecheck/collectors/github.py:196-200 | as written, a budget of `n` files reads only the first `n - 1` |
| GitHub.Scan | disclosurecheck/collectors/github.py:196-200 | the corrected loop reads the first `n` files |
| GitHub.ScanCapCounterexample | disclosurecheck/collectors/github.py:196-200 | with exactly 30 hits the loop as written reads 29, the corrected one reads all 30 |
| GitHub.HitContacts | disclosurecheck/collectors/github.py:203-212 | every hit contact comes from a match in a scanned file, and every match of every scanned file gives its priority-25 e-mail contact sourced from that file |
| GitHub.Scanned | disclosurecheck/collectors/github.py:196-200 | the files read are the first 29 of the hits as written and the first 30 as intended |
| GitHub.SearchContactsAsWritten | disclosurecheck/collectors/github.py:196-212 | as written, the contacts are exactly the capture-group values of the matches in the first 29 files |
| GitHub.SearchContacts | disclosurecheck/collectors/github.py:196-212 | corrected, the contacts are exactly the whole matched addresses of the matches in the first 30 files |
| GitHub.SearchValuesAreSeparators | disclosurecheck/collectors/github.py:203 | as written, every value recorded is `@` or `[at]` |
| GitHub.SingleMatchSearch | disclosurecheck/collectors/github.py:203-211 | for one file with one match, the code as written records the separator and the corrected code the address |
| GitHub.SearchAsWrittenLosesAddress | disclosurecheck/collectors/github.py:203-211 | a concrete hit for `security@acme.dev` is recorded as `@` by the code as written |
| GitHub.ExamineAsWritten | disclosurecheck/collectors/github.py:217-223 | as written, the pull loop examines up to 21 pulls |
| GitHub.Examine | disclosurecheck/collectors/github.py:217-223 | corrected, the pull loop examines at most 20 pulls |
| GitHub.PullCapCounterexample | disclosurecheck/collectors/github.py:217-223 | with 21 closed pulls all 21 are examined as written, against 20 corrected |
| GitHub.Mergers | disclosurecheck/collectors/github.py:225-228 | the mergers are distinct and are exactly the logins that merged an examined pull |
| GitHub.MergedLogins | disclosurecheck/collectors/github.py:225-228 | a login is collected exactly when some examined pull was merged by it; pulls with no merger contribute nothing |
| GitHub.MergerContacts | disclosurecheck/collectors/github.py:230-241 | there is a priority-65 contact for exactly those mergers with a truthy e-mail |
| GitHub.WithOwner | disclosurecheck/collectors/github.py:119-127 | a truthy owner e-mail adds exactly its key; otherwise nothing changes |
| GitHub.WithForm | disclosurecheck/collectors/github.py:130-158 | a detected reporting form adds exactly its `github_pvr` key; otherwise nothing changes |
| GitHub.SearchAndMergers | disclosurecheck/collectors/github.py:190-241 | only contacts change, keys stay unique and none is lost; it raises exactly when the code search or a merger lookup fails; a failed search leaves exactly the hits of the files read before it; without a failure the result is the search hits and then the merger contacts added in turn |
| GitHub.Collect | disclosurecheck/collectors/github.py:118-241 | a failed PVR request raises with only the owner e-mail added; when the security insights collector only adds contacts, the package URL is kept, keys stay unique, none is lost, and the owner e-mail, the PVR form and every probe key are present; it finishes normally only without a failure |
| GitHub.Analyze | disclosurecheck/collectors/github.py:75-241 | no purl or no token leaves the context unchanged; a missing repository, or a renamed one for a purl with a namespace, finishes normally; a fetched repository for a purl without a namespace raises with the state notes recorded; otherwise any remote failure raises; keys stay unique and none is lost when the insights collector only adds contacts |
| GitHub.AnalyzeMissingRepository | disclosurecheck/collectors/github.py:90-96 | an inaccessible repository only records the normalized purl as related |
| GitHub.AnalyzeWithoutNamespace | disclosurecheck/collectors/github.py:92-110 | a purl without a namespace whose repository was fetched raises at the rename test, after the state notes and before any move note or contact |
| GitHub.AnalyzeRenamed | disclosurecheck/collectors/github.py:99-116 | for a purl with a namespace, a moved repository adds the old and new purls and the state and move notes, and no contacts |
| GitHub.AnalyzeSameName | disclosurecheck/collectors/github.py:90-241 | for a purl with a namespace, an unmoved repository adds its normalized purl and state notes and then runs every contact source |
| Tidelift.Slug | disclosurecheck/collectors/tidelift.py:29-33 | with a namespace the slug is the namespace, character by character, with each `@` written as `.` and every other character kept, then a dash, then the name; otherwise just the name |
| Tidelift.SlugKeepsPlainNamespace | disclosurecheck/collectors/tidelift.py:29-33 | a namespace without `@` appears unchanged in front of the dash and the name |
| Tidelift.ReferencingFiles | disclosurecheck/collectors/tidelift.py:73-77 | the referencing files are exactly the hits that are not `package-lock.json` or `yarn.lock` |
| Tidelift.HitsSourceListsFiles | disclosurecheck/collectors/tidelift.py:85 | the comma-joined source splits back into the referencing file names |
| Tidelift.Analyze | disclosurecheck/collectors/tidelift.py:17-87 | only contacts change; it raises exactly when the subscription request fails or the branch lookup fails once GitHub is reached; a 200 from the subscription page, or a non-lock-file code hit, adds the Tidelift key; otherwise the context is unchanged; at most that one key is added |
| Tidelift.AnalyzeNewEntry | disclosurecheck/collectors/tidelift.py:36-87 | when the Tidelift key is new, the entry added carries the subscription URL, the comma-joined referencing files, or both merged, according to which source found it |
| LibrariesIo.PlatformPurl | disclosurecheck/collectors/librariesio.py:21-22 | `gem` is renamed `rubygems` and nothing else changes |
| LibrariesIo.PackageName | disclosurecheck/collectors/librariesio.py:24-30 | the name is `namespace:name` for Maven, `namespace/name` otherwise, or the bare name |
| LibrariesIo.PackageNameSplits | disclosurecheck/collectors/librariesio.py:24-30 | the namespace and name can be recovered from the package name at its first separator |
| LibrariesIo.MatchAt | disclosurecheck/collectors/librariesio.py:47 | a match at a position finds `github.com/` there, followed by a non-empty owner and repository without slashes |
| LibrariesIo.LastMatch | disclosurecheck/collectors/librariesio.py:47 | the greedy `.*` settles on the last position where the pattern matches |
| LibrariesIo.GitHubOwnerRepo | disclosurecheck/collectors/librariesio.py:47 | a URL matches exactly when some position does, and the owner and repository come from the last such position |
| LibrariesIo.GitSuffixKept | disclosurecheck/collectors/librariesio.py:47 | for `github.com/a/b.git` the owner is `a` and the repository `b.git`: the optional `(\.git)?` does not strip the suffix, because the greedy repository group already consumed it |
| LibrariesIo.CandidateUrls | disclosurecheck/collectors/librariesio.py:39-45 | the URLs tried are the distinct truthy sanitized repository and homepage URLs |
| LibrariesIo.RelatedFromUrls | disclosurecheck/collectors/librariesio.py:43-54 | a related purl is added for exactly the URLs that match the GitHub pattern |
| LibrariesIo.Analyze | disclosurecheck/collectors/librariesio.py:14-59 | only related purls change; no purl or a failed request changes nothing; a response appends exactly the purls of the candidate URLs that match the GitHub pattern, at most two, each with a non-empty owner and name |
| PackageContent.SetupPatternIsLoose | disclosurecheck/collectors/packagecontent.py:50 | the unescaped dot in `setup.py$` also selects `setup_py`, and the match ignores case |
| PackageContent.SelectedPlainPath | disclosurecheck/collectors/packagecontent.py:45-53 | for a path without a line break, the `SEARCH_FILES` patterns select it exactly when its lower-cased text ends in `.gemspec`, `.cabal` or `/description`, contains `/security.`, or ends in `/setup`, one character and `py` |
| PackageContent.AnalyzeFile | disclosurecheck/collectors/packagecontent.py:44-59 | an unselected or unreadable file changes nothing; a selected file adds what `find_contacts` discovers under its base name at priority 25, merged with the corrected `add_contact` |
| PackageContent.AnalyzeFiles | disclosurecheck/collectors/packagecontent.py:34-37 | the walk over all files keeps keys unique and never changes the key at an existing position |
| PackageContent.AnalyzeFilesKeys | disclosurecheck/collectors/packagecontent.py:34-37 | the walk over all files adds exactly the keys that the selected, readable files yield one by one |
| PackageContent.UnselectedFilesIgnored | disclosurecheck/collectors/packagecontent.py:53 | analyzing all files is the same as analyzing only the selected ones |
| PackageContent.OnlySelectedFilesRead | disclosurecheck/collectors/packagecontent.py:53-57 | the result depends only on the contents of selected files |
| PackageContent.Analyze | disclosurecheck/collectors/packagecontent.py:20-41 | a failed launch or non-zero exit changes nothing; otherwise every selected file is analyzed; keys stay unique |
| DisclosureCheck.NewDisclosureCheck | disclosurecheck/main.py:43-48 | construction fails with `ValueError` exactly when no purl is given, and otherwise holds the purl and a fresh context |
| DisclosureCheck.ApplyAppend | disclosurecheck/main.py:79-92 | analyzing a concatenation is analyzing the first list and then, unless an analysis raised, the second |
| DisclosureCheck.ApplyStopsAtRaise | disclosurecheck/main.py:79-92 | once an analysis has raised, further purls change nothing: the exception leaves `execute` |
| DisclosureCheck.ApplyKeepsUniqueKeys | disclosurecheck/main.py:81-92 | analyses that keep keys unique keep them unique over any list of purls |
| DisclosureCheck.Additional | disclosurecheck/main.py:87 | the additional purls are distinct and are exactly those related after the first pass but not before |
| DisclosureCheck.Pass | disclosurecheck/main.py:81-84 | one pass analyzes the GitHub purls of the list in order; it visits all of them when none raises, and otherwise stops at the one that raised |
| DisclosureCheck.WalkRelated | disclosurecheck/main.py:79-92 | the walk is the first pass over the GitHub purls related at the start and, unless it raised, a second over the new ones; only GitHub purls are visited, and every one related at the start is visited when nothing raised; key uniqueness is kept |
| DisclosureCheck.AnalyzeRelated | disclosurecheck/main.py:83-84 | a raising GitHub analysis ends the step with its context and skips Tidelift; a raising Tidelift analysis raises the step; the package URL is kept, keys stay unique and none is lost when the insights collector only adds contacts |
| DisclosureCheck.Finish | disclosurecheck/main.py:100-102 | the final contacts are the cleaned ones, sorted and distinct; notes and related purls are sorted and distinct with the same members |
| DisclosureCheck.Execute | disclosurecheck/main.py:50-102 | it completes exactly when no related analysis raised; a completed run is the overridden, cleaned and sorted walk, sorted and duplicate-free, having visited every GitHub purl related after collection; an interrupted run is the context the raising analysis left |
| DisclosureCheck.PriorityLabel | disclosurecheck/main.py:131-141 | below 20 is High, below 60 Medium, below 100 Low, exactly 100 Generic, above 100 Unknown |
| DisclosureCheck.LabelMonotone | disclosurecheck/main.py:131-141 | a larger priority number never gets a more urgent label |
| DisclosureCheck.RenderEmail | disclosurecheck/main.py:145-150 | a named e-mail renders as its name followed by ` <address>`; an unnamed one as the bare address |
| DisclosureCheck.RenderLink | disclosurecheck/main.py:152-156 | PVR and NuGet contacts render ending in `<value>` |
| DisclosureCheck.RenderPlain | disclosurecheck/main.py:158-168 | URL, fallback URL and social contacts render as their value; Tidelift as its fixed text; an unknown type renders nothing |
| DisclosureCheck.WrappedRenderingsClose | disclosurecheck/main.py:145-159 | every rendering that opens `<` closes it with `>` |
| DisclosureCheck.RenderAsWritten | disclosurecheck/main.py:143-168 | as written, NuGet contacts use the rendering without `>` and all others agree with the corrected rendering |
| DisclosureCheck.Render | disclosurecheck/main.py:143-168 | with the NuGet wrapper closed: the rendering is empty, and the contact skipped, exactly for an unknown type or an empty value shown bare; every shown type except Tidelift ends with the value, possibly followed by `>` |
| DisclosureCheck.Rendering | disclosurecheck/main.py:143-168 | the program as written renders NuGet contacts without `>`; the corrected program and every other type use the corrected rendering |
| DisclosureCheck.NuGetRenderingLeftOpen | disclosurecheck/main.py:155-156 | a concrete NuGet contact renders without its closing `>` as written and with it when corrected |
| DisclosureCheck.Renders | disclosurecheck/main.py:130-168 | one rendering per contact, in order |
| DisclosureCheck.RendersMembers | disclosurecheck/main.py:130-168 | a string is rendered exactly when some contact renders to it |
| DisclosureCheck.FirstSeenIsDedup | disclosurecheck/main.py:170-171 | keeping each non-empty rendering the first time it is seen is de-duplication of the non-empty renderings |
| DisclosureCheck.KeepFirstSeen | disclosurecheck/main.py:127-171 | the `contact_seen` loop keeps each non-empty rendering at the first step it appears, and records that step |
| DisclosureCheck.ShowEach | disclosurecheck/main.py:127-173 | the loop prints each new non-empty rendering once, in first-seen order, and each line carries the priority label of the first contact with that rendering |
| DisclosureCheck.PrintContacts | disclosurecheck/main.py:126-176 | the contacts shown are exactly the distinct non-empty renderings, each labelled by its first contact; the apology line is printed exactly when none are shown |
| DisclosureCheck.ContactLineIsNotApology | disclosurecheck/main.py:173-176 | a contact line never reads as the apology line |
| DisclosureCheck.RelatedListing | disclosurecheck/main.py:115-123 | the related projects listed are the distinct string forms that differ from the package's own; the listing is empty exactly when every related purl prints as the package itself |

## Left out

- HTTP requests, the PyGithub client and `os.environ` are not performed. Their answers are inputs: the `Remote`, `TideliftRemote` and `LibraryData` values, the rate limits and the token.
- An exception is an `Outcome`: `Raised(ctx)` carries the context as far as the analysis had changed it. The failing call is an input field: `Remote.failure` names the PVR request, the code search after some files, or a merger lookup after some users; `TideliftRemote.failure` names the subscription request or the GitHub branch lookup. In `execute` such an exception is not caught around the related-purl walk, so it ends `execute`, and the report is printed from the context as it was (`main.py:219-227`). A libraries.io request that raises is a `None` response, because `analyze_librariesio` runs inside `execute`'s own `try`, where the exception only ends that analyzer.
- Exceptions from other PyGithub calls (`get_repo` is the missing repository; a lazy attribute such as `owner.email` failing to load, or `get_rate_limit` raising) are not modelled.
- Python `set` iteration order is unspecified, and string hashes vary between runs. The model iterates every set in order of first occurrence (`Dedup`), which is one of the orders Python may use. The contracts about sets hold for any order, but the bodies fix this one, and it decides:
  - which name an address keeps when the text names it twice (`searchers.py:28-41`);
  - the order in which found URLs and per-file code-search matches are added (`searchers.py:60-106`, `github.py:203-211`);
  - the order of the probe file lists `COMMON_SECURITY_MD_PATHS` and `COMMON_OTHER_FILE_PATHS` (`github.py:26-47`);
  - which mergers were looked up before a `MergerLookupFails(k)` (`github.py:225-241`);
  - which additional purls are analysed before a raise in the second pass of the walk (`main.py:87-92`);
  - the order in which libraries.io candidate URLs append their related purls (`librariesio.py:39-54`).
- Thread pools are not modelled. `imap_unordered` is modelled as running the dispatched probes one after another in list order; this is one of the schedules the pool allows. The source never consumes the pool's iterator, so whether the probes finish before `analyze` returns is a race the model does not represent.
- `lru_cache` on `analyze` in both the GitHub and the Tidelift collectors is not modelled. The source skips a repeated call with the same purl and context, while the model runs it again. A repeated GitHub analysis appends duplicate related purls and notes, which `sort` removes, and re-adds its contacts, which `AddContactIdempotent` shows changes nothing for canonical fields. A repeated Tidelift analysis re-merges its contact, which sorts the comma list of hit file names in its source: there the model and the source can differ.
- `subprocess.run` of `oss-download`, `tempfile`, `os.walk`, `open` and `shutil.rmtree` are not modelled. The download outcome, its file list and a `read` function are inputs.
- `URLExtract`, `validators.email`, `sanitize_github_url`, `normalize_packageurl` and `PackageURL.from_string` are external libraries. They are function parameters (`Extractors`, `sanitize`, `normalize`, `toPurl`).
- The named-address regular expression of `searchers.py:28` is the program's own pattern, but it relies on Unicode `\w` classes and `re.IGNORECASE`; its matches are the `namedEmails` parameter of `Extractors` rather than a model of the pattern.
- `clean_contacts`, `check_for_overrides`, `add_fallback_mechanisms`, `analyze_ibb` and the per-type analyzer module that `execute` imports are not part of this model. `Execute` takes them as the `Phases` functions.
- `analyze_securityinsights` (called at `github.py:188`) is not part of this model. It is the `Remote.insights` function from context to outcome. The GitHub contracts about keys hold under `OnlyAdds(insights)`: the collector keeps the package URL, keeps keys unique and loses none.
- Logging, console colours and `print_results_console`'s header and notes are not modelled. The contact lines keep the rich markup literally.
- `get_results_json` is modelled only as the `to_dict` dictionary (`ToDict`); `json.dumps` is not modelled.
- Case-insensitive matching uses ASCII case folding only. `str.strip` follows Python's `isspace` set (`Text.IsSpace`).
- AnalysisContext.SortContacts: contacts whose priority, type and value all tie (possible only when two contacts share a key) come out in an order the model does not relate to Python's stable sort.
- AnalysisContext.SortContacts: the set-of-item-tuples de-duplication in `sort` treats two dicts with the same items in a different key order as different; the model compares fields, so it removes those duplicates too.
- PackageUrls.PurlLess: Python raises `TypeError` when `sorted` compares a purl whose namespace or version is `None` with one where it is a string; the model orders the absent value first instead.
- PackageUrls.PurlString: percent-encoding, qualifiers and subpaths are not modelled; the string is type, namespace, name and version.
- GitHub.Analyze: its own contract states the gate, which outcomes raise, the package URL and key preservation; the related purls, notes and contacts of each outcome are stated by `AnalyzeMissingRepository`, `AnalyzeRenamed`, `AnalyzeSameName`, `Collect` and `SearchAndMergers`.
- Contacts.AddContact: every member that adds contacts uses the corrected merge in both readings of the program, so none follows the `KeyError` of Findings row 4. A realistic trigger is a named address whose name strips to `""` (searchers.py:28-41), followed by the same address without a name. The source then behaves as follows, and the model does not:
  - Searchers.FindContacts: `find_contacts` stops at the failing `add_contact`, so the contacts it would have added after it are lost, and the exception goes to the caller.
  - PackageContent.AnalyzeFile, PackageContent.AnalyzeFiles and PackageContent.Analyze: `analyze_file` catches the exception (packagecontent.py:58-59), so the rest of that file's contacts are lost while later files are still analysed.
  - GitHub.CheckGithubSecurityMd, GitHub.RunProbes and GitHub.DispatchedFindsProbeListKeys: the exception stays inside the `imap_unordered` iterator that nothing consumes (github.py:176,185), so the rest of that probed file's contacts are lost while the other probes still run.
  - GitHub.Collect, GitHub.SearchAndMergers, GitHub.Analyze and Tidelift.Analyze: a failing `add_contact` at github.py:120-241 or tidelift.py:40-87 raises out of `analyze`. In the related-purl walk this would end `execute` like the failures the model does follow.
- GitHub.CheckFromArgs: the `len(args)` checks of `_check_github_security_md` are modelled as optional branch and priority fields; the source always passes all five.
- Tidelift.Analyze: a repository that cannot be fetched is the `repoFound` flag of the input, which the source catches as `UnknownObjectException`; any other failure of the branch lookup is `GitHubBranchFails`.
- Contacts.Merge: the `add_contact` docstring speaks of taking "the highest priority", but the code takes `max`, which is the least urgent; the model follows the code.
- Contacts.AddContact: the model merges contacts with the same type and value, as the code does, rather than keeping every contact.
- LibrariesIo.GitSuffixKept: the pattern's `(\.git)?` is optional after a greedy group, so for `github.com/a/b.git` the repository name is `b.git`; the model follows the regex.

## Findings

| source | as written | input that shows it | evidently intended | confidence | as-written member | corrected member |
|---|---|---|---|---|---|---|
| disclosurecheck/collectors/github.py:196-200 | the counter is decremented before it is compared with 0, so only 29 of at most 30 search hits are read | 30 code-search hits: the 30th is never read (`ScanCapCounterexample`) | read up to `MAX_CONTENT_SEARCH_FILES` = 30 files | not executed | GitHub.ScanAsWritten | GitHub.Scan |
| disclosurecheck/collectors/github.py:217-223 | the loop breaks only when `pulls_checked > 20`, so 21 pulls are examined | 21 closed pulls: all 21 are examined (`PullCapCounterexample`) | examine at most `MAX_PULLS_TO_CHECK` = 20 pulls | not executed | GitHub.ExamineAsWritten | GitHub.Examine |
| disclosurecheck/collectors/github.py:203-211 | `re.findall` with one capture group `(@\|\[at\])` returns the separator, so the recorded e-mail value is `@` or `[at]` | a file containing `security@acme.dev` gives the contact value `@` (`SearchAsWrittenLosesAddress`) | record the whole matched address | not executed | GitHub.SearchContactsAsWritten | GitHub.SearchContacts |
| disclosurecheck/util/context.py:58-67 | when the existing contact's field is present but falsy and the new contact lacks that key, `new_contact[key]` raises `KeyError` | an existing contact with `name` "" and a new one without `name` (`AddContactAsWrittenRaises`) | read the new value with `.get(key)`, as the other branch does | not executed | Contacts.AddContactAsWritten | Contacts.AddContact |
| disclosurecheck/main.py:155-156 | the NuGet rendering opens `<` and never closes it | a `nuget_contact` with any value renders without `>` (`NuGetRenderingLeftOpen`) | `NuGet 'Contact Owner' Link <value>`, like the other wrapped renderings | not executed | DisclosureCheck.RenderAsWritten | DisclosureCheck.Render |
