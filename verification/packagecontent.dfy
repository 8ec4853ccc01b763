/** The package-content collector (disclosurecheck/collectors/packagecontent.py).
    Downloading and walking the package are inputs: the download outcome carries the
    paths found, and `read` gives a file's text or None when reading fails. */
module PackageContent {
  import opened Base
  import opened Text
  import opened Ordering
  import opened Contacts
  import opened Searchers
  import opened UrlRules

  /** `re.match(r".*" + suffix + "$", f, re.IGNORECASE)` for a literal lower-case suffix:
      the first line ends with it. */
  predicate LineEndsWithIgnoringCase(f: string, suffix: string) {
    var t := DropFinalNewline(f);
    NoNewline(t) && |suffix| <= |t| && Lower(t[|t| - |suffix|..]) == suffix
  }

  // `.*/setup.py$` ignoring case; the unescaped `.` is any character but a line break.
  predicate SetupScript(f: string) {
    var t := DropFinalNewline(f);
    NoNewline(t) && 9 <= |t| && Lower(t[|t| - 9..|t| - 3]) == "/setup" && Lower(t[|t| - 2..]) == "py"
  }

  // `.*/security\.` ignoring case, matched from the start.
  predicate SecurityFile(f: string) {
    exists i | 0 <= i <= |f| - 10 :: NoNewline(f[..i]) && OccursAtIgnoringCase(f, "/security.", i)
  }

  /** The `SEARCH_FILES` test for a one-line path, stated on its lower-cased form: one of
      the three suffixes, `/security.` anywhere, or `/setup`, any one character and `py`
      at the end. */
  predicate SelectedName(l: string) {
    || EndsWith(l, ".gemspec")
    || EndsWith(l, ".cabal")
    || EndsWith(l, "/description")
    || Contains(l, "/security.")
    || (9 <= |l| && OccursAt(l, "/setup", |l| - 9) && EndsWith(l, "py"))
  }

  lemma NoFinalNewline(f: string)
    requires NoNewline(f)
    ensures DropFinalNewline(f) == f
  {
    if |f| > 0 {
      assert f[|f| - 1] != '\n';
    }
  }

  lemma LineEndsPlain(f: string, suffix: string)
    ensures NoNewline(f) ==> (LineEndsWithIgnoringCase(f, suffix) <==> EndsWith(Lower(f), suffix))
  {
    if NoNewline(f) {
      NoFinalNewline(f);
      if |suffix| <= |f| {
        LowerSlice(f, |f| - |suffix|, |f|);
      }
    }
  }

  lemma SecurityPlain(f: string)
    ensures NoNewline(f) ==> (SecurityFile(f) <==> Contains(Lower(f), "/security."))
  {
    if NoNewline(f) {
      var l := Lower(f);
      if SecurityFile(f) {
        var i :| 0 <= i <= |f| - 10 && NoNewline(f[..i]) && OccursAtIgnoringCase(f, "/security.", i);
        LowerSlice(f, i, i + 10);
        assert OccursAt(l, "/security.", i);
      }
      if Contains(l, "/security.") {
        var i :| 0 <= i <= |l| - 10 && OccursAt(l, "/security.", i);
        LowerSlice(f, i, i + 10);
        assert NoNewline(f[..i]);
        assert OccursAtIgnoringCase(f, "/security.", i);
      }
    }
  }

  lemma SetupPlain(f: string)
    ensures NoNewline(f) ==>
      (SetupScript(f) <==> 9 <= |f| && OccursAt(Lower(f), "/setup", |f| - 9) && EndsWith(Lower(f), "py"))
  {
    if NoNewline(f) {
      NoFinalNewline(f);
      if 9 <= |f| {
        LowerSlice(f, |f| - 9, |f| - 3);
        LowerSlice(f, |f| - 2, |f|);
      }
    }
  }

  /** Some pattern of `SEARCH_FILES` matches the path. */
  predicate Selected(f: string) {
    || LineEndsWithIgnoringCase(f, ".gemspec")
    || SecurityFile(f)
    || LineEndsWithIgnoringCase(f, ".cabal")
    || LineEndsWithIgnoringCase(f, "/description")
    || SetupScript(f)
  }

  /** For a path without a line break, selection is a test of its lower-cased text. */
  lemma SelectedPlainPath(f: string)
    ensures NoNewline(f) ==> (Selected(f) <==> SelectedName(Lower(f)))
  {
    LineEndsPlain(f, ".gemspec");
    LineEndsPlain(f, ".cabal");
    LineEndsPlain(f, "/description");
    SecurityPlain(f);
    SetupPlain(f);
  }

  /** The setup pattern admits names the literal "/setup.py" does not. */
  lemma SetupPatternIsLoose()
    ensures Selected("pkg/setup_py") && Selected("pkg/SETUP.PY")
  {
    assert SetupScript("pkg/setup_py");
    assert SetupScript("pkg/SETUP.PY");
  }

  /** `analyze_file`: a selected, readable file is searched under its base name at the
      default priority; anything else adds nothing. */
  function AnalyzeFile(path: string, read: string -> Option<string>, x: Extractors, cs: seq<Contact>): (r: seq<Contact>)
    ensures !Selected(path) || read(path).None? ==> r == cs
    ensures Selected(path) && read(path).Some? ==>
      Keys(r) == Keys(cs) + Keys(Discovered(x, Basename(path), read(path).value, DefaultPriority))
    ensures UniqueKeys(cs) ==> UniqueKeys(r)
  {
    if !Selected(path) then cs
    else match read(path)
      case None => cs
      case Some(content) => FindContacts(x, Basename(path), content, DefaultPriority, cs)
  }

  /** The keys the selected, readable files among `paths` yield, each searched on its own. */
  function FoundKeys(paths: seq<string>, read: string -> Option<string>, x: Extractors): set<(string, string)>
    decreases |paths|
  {
    if paths == [] then {}
    else
      var here := if Selected(paths[0]) && read(paths[0]).Some?
        then Keys(Discovered(x, Basename(paths[0]), read(paths[0]).value, DefaultPriority)) else {};
      here + FoundKeys(paths[1..], read, x)
  }

  /** The `os.walk` loop: every file in turn. */
  function AnalyzeFiles(paths: seq<string>, read: string -> Option<string>, x: Extractors, cs: seq<Contact>): (r: seq<Contact>)
    ensures UniqueKeys(cs) ==> UniqueKeys(r)
    ensures |cs| <= |r| && forall i :: 0 <= i < |cs| ==> SameKey(r[i], cs[i])
    decreases |paths|
  {
    if paths == [] then cs
    else AnalyzeFiles(paths[1..], read, x, AnalyzeFile(paths[0], read, x, cs))
  }

  /** The walk adds exactly the keys the selected, readable files yield one by one. */
  lemma {:induction false} AnalyzeFilesKeys(paths: seq<string>, read: string -> Option<string>, x: Extractors, cs: seq<Contact>)
    ensures Keys(AnalyzeFiles(paths, read, x, cs)) == Keys(cs) + FoundKeys(paths, read, x)
    decreases |paths|
  {
    if paths != [] {
      AnalyzeFilesKeys(paths[1..], read, x, AnalyzeFile(paths[0], read, x, cs));
    }
  }

  /** Unselected files contribute nothing: analysing all paths is analysing the
      selected ones. */
  lemma {:induction false} UnselectedFilesIgnored(paths: seq<string>, read: string -> Option<string>, x: Extractors, cs: seq<Contact>)
    ensures AnalyzeFiles(paths, read, x, cs) == AnalyzeFiles(Filter(Selected, paths), read, x, cs)
    decreases |paths|
  {
    if paths != [] {
      UnselectedFilesIgnored(paths[1..], read, x, AnalyzeFile(paths[0], read, x, cs));
      if !Selected(paths[0]) {
        UnselectedFilesIgnored(paths[1..], read, x, cs);
      }
    }
  }

  /** Unselected files are never read: readers that agree on the selected paths give
      the same contacts. */
  lemma {:induction false} OnlySelectedFilesRead(paths: seq<string>, read1: string -> Option<string>,
                                                 read2: string -> Option<string>, x: Extractors, cs: seq<Contact>)
    requires forall p :: p in paths && Selected(p) ==> read1(p) == read2(p)
    ensures AnalyzeFiles(paths, read1, x, cs) == AnalyzeFiles(paths, read2, x, cs)
    decreases |paths|
  {
    if paths != [] {
      assert paths[0] in paths;
      assert AnalyzeFile(paths[0], read1, x, cs) == AnalyzeFile(paths[0], read2, x, cs);
      OnlySelectedFilesRead(paths[1..], read1, read2, x, AnalyzeFile(paths[0], read1, x, cs));
    }
  }

  /** The outcome of running `oss-download`: it could not be started, or it finished
      with a return code and the paths found under its directory. */
  datatype Download = LaunchFailed | Finished(returnCode: int, paths: seq<string>)

  /** `analyze_packagecontent`: files are analysed only after a successful download. */
  function Analyze(d: Download, read: string -> Option<string>, x: Extractors, cs: seq<Contact>): (r: seq<Contact>)
    ensures d.LaunchFailed? || d.returnCode != 0 ==> r == cs
    ensures d.Finished? && d.returnCode == 0 ==> r == AnalyzeFiles(Filter(Selected, d.paths), read, x, cs)
    ensures UniqueKeys(cs) ==> UniqueKeys(r)
  {
    match d
    case LaunchFailed => cs
    case Finished(code, paths) =>
      if code == 0 then
        UnselectedFilesIgnored(paths, read, x, cs);
        AnalyzeFiles(paths, read, x, cs)
      else cs
  }
}
