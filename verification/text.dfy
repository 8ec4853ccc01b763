/** String operations of Python's `str` used by the program, over `seq<char>`. */
module Text {
  import opened Base


  /** ASCII lower-casing of one character (Python's Unicode folding is not modelled). */
  function LowerChar(c: char): char {
    if 'A' <= c <= 'Z' then (c as int + 32) as char else c
  }

  function Lower(s: string): (r: string)
    ensures |r| == |s|
    ensures forall i :: 0 <= i < |s| ==> r[i] == LowerChar(s[i])
  {
    seq(|s|, i requires 0 <= i < |s| => LowerChar(s[i]))
  }

  lemma LowerSlice(s: string, a: int, b: int)
    requires 0 <= a <= b <= |s|
    ensures Lower(s[a..b]) == Lower(s)[a..b]
  {
  }

  predicate StartsWith(s: string, prefix: string) {
    |prefix| <= |s| && s[..|prefix|] == prefix
  }

  predicate EndsWith(s: string, suffix: string) {
    |suffix| <= |s| && s[|s| - |suffix|..] == suffix
  }

  /** `sub` occurs in `s` starting at index `i`. */
  predicate OccursAt(s: string, sub: string, i: int) {
    0 <= i && i + |sub| <= |s| && s[i..i + |sub|] == sub
  }

  /** Python's `sub in s`. */
  predicate Contains(s: string, sub: string) {
    exists i | 0 <= i <= |s| - |sub| :: OccursAt(s, sub, i)
  }

  /** No line break: the region a leading `.*` of a regular expression can span. */
  predicate NoNewline(s: string) {
    forall i :: 0 <= i < |s| ==> s[i] != '\n'
  }

  /** The text a `$` anchor sees: `$` also matches just before one final line break. */
  function DropFinalNewline(s: string): (r: string)
    ensures r == s || s == r + "\n"
  {
    if |s| > 0 && s[|s| - 1] == '\n' then s[..|s| - 1] else s
  }

  /** First index of `c` in `s`. */
  function IndexOf(s: string, c: char): (r: Option<nat>)
    ensures r.None? <==> c !in s
    ensures r.Some? ==> r.value < |s| && s[r.value] == c && c !in s[..r.value]
  {
    if s == [] then None
    else if s[0] == c then Some(0)
    else match IndexOf(s[1..], c)
      case None => None
      case Some(k) => assert s[1..][..k] == s[1..k + 1]; Some(k + 1)
  }

  /** Python's `s.split(sep)` for a non-empty separator: the pieces between
      the leftmost non-overlapping occurrences of `sep`. */
  function Split(s: string, sep: string): (r: seq<string>)
    requires |sep| > 0
    ensures |r| >= 1
    decreases |s|
  {
    if |s| < |sep| then [s]
    else if s[..|sep|] == sep then [""] + Split(s[|sep|..], sep)
    else
      var rest := Split(s[1..], sep);
      [[s[0]] + rest[0]] + rest[1..]
  }

  /** Python's `sep.join(xs)`. */
  function Join(xs: seq<string>, sep: string): string {
    if |xs| == 0 then ""
    else if |xs| == 1 then xs[0]
    else xs[0] + sep + Join(xs[1..], sep)
  }

  /** Python's `s.replace(pat, repl)` for a non-empty `pat`: leftmost,
      non-overlapping occurrences are replaced. */
  function Replace(s: string, pat: string, repl: string): string
    requires |pat| > 0
    decreases |s|
  {
    if |s| < |pat| then s
    else if s[..|pat|] == pat then repl + Replace(s[|pat|..], pat, repl)
    else [s[0]] + Replace(s[1..], pat, repl)
  }

  /** Replacing introduces no character foreign to the text and the replacement, and
      changes nothing when the pattern does not occur. */
  lemma {:induction false} ReplaceFacts(s: string, pat: string, repl: string)
    requires |pat| > 0
    ensures forall ch :: ch in Replace(s, pat, repl) ==> ch in s || ch in repl
    ensures !Contains(s, pat) ==> Replace(s, pat, repl) == s
    decreases |s|
  {
    if |s| < |pat| {
    } else if s[..|pat|] == pat {
      ReplaceFacts(s[|pat|..], pat, repl);
      assert OccursAt(s, pat, 0);
      forall ch | ch in s[|pat|..] ensures ch in s { }
    } else {
      ReplaceFacts(s[1..], pat, repl);
      assert !Contains(s, pat) ==> !Contains(s[1..], pat) by {
        if Contains(s[1..], pat) {
          var i :| 0 <= i <= |s[1..]| - |pat| && OccursAt(s[1..], pat, i);
          assert s[i + 1..i + 1 + |pat|] == s[1..][i..i + |pat|];
          assert OccursAt(s, pat, i + 1);
        }
      }
      forall ch | ch in s[1..] ensures ch in s { }
      if !Contains(s, pat) {
        assert s == [s[0]] + s[1..];
      }
    }
  }

  lemma JoinCons(x: string, xs: seq<string>, sep: string)
    requires |xs| >= 1
    ensures Join([x] + xs, sep) == x + sep + Join(xs, sep)
  {
    assert ([x] + xs)[1..] == xs;
  }

  /** Python documents `s.replace(pat, repl)` as `repl.join(s.split(pat))`;
      the two definitions here agree on every input. */
  lemma ReplaceStep(s: string, pat: string, repl: string)
    requires |pat| > 0 && |s| >= |pat|
    ensures s[..|pat|] == pat ==> Replace(s, pat, repl) == repl + Replace(s[|pat|..], pat, repl)
    ensures s[..|pat|] != pat ==> Replace(s, pat, repl) == [s[0]] + Replace(s[1..], pat, repl)
  {
  }

  lemma SplitStep(s: string, pat: string)
    requires |pat| > 0 && |s| >= |pat|
    ensures s[..|pat|] == pat ==> Split(s, pat) == [""] + Split(s[|pat|..], pat)
    ensures s[..|pat|] != pat ==>
      Split(s, pat) == [[s[0]] + Split(s[1..], pat)[0]] + Split(s[1..], pat)[1..]
  {
  }

  /** Gluing one character onto the first piece of a join. */
  lemma JoinGlueFirst(c: char, rest: seq<string>, sep: string)
    requires |rest| >= 1
    ensures Join([[c] + rest[0]] + rest[1..], sep) == [c] + Join(rest, sep)
  {
    if |rest| > 1 {
      JoinCons([c] + rest[0], rest[1..], sep);
      JoinCons(rest[0], rest[1..], sep);
      assert [rest[0]] + rest[1..] == rest;
    }
  }

  lemma {:induction false} ReplaceIsJoinOfSplit(s: string, pat: string, repl: string)
    requires |pat| > 0
    ensures Replace(s, pat, repl) == Join(Split(s, pat), repl)
    decreases |s|
  {
    if |s| < |pat| {
    } else if s[..|pat|] == pat {
      ReplaceStep(s, pat, repl);
      SplitStep(s, pat);
      ReplaceIsJoinOfSplit(s[|pat|..], pat, repl);
      JoinCons("", Split(s[|pat|..], pat), repl);
    } else {
      ReplaceStep(s, pat, repl);
      SplitStep(s, pat);
      ReplaceIsJoinOfSplit(s[1..], pat, repl);
      JoinGlueFirst(s[0], Split(s[1..], pat), repl);
    }
  }

  lemma {:induction false} ReplaceSelf(s: string, pat: string)
    requires |pat| > 0
    ensures Replace(s, pat, pat) == s
    decreases |s|
  {
    if |s| < |pat| {
    } else if s[..|pat|] == pat {
      ReplaceSelf(s[|pat|..], pat);
      assert s == s[..|pat|] + s[|pat|..];
    } else {
      ReplaceSelf(s[1..], pat);
      assert s == [s[0]] + s[1..];
    }
  }

  /** Joining the pieces of a split with the same separator gives back the text. */
  lemma JoinSplit(s: string, sep: string)
    requires |sep| > 0
    ensures Join(Split(s, sep), sep) == s
  {
    ReplaceIsJoinOfSplit(s, sep, sep);
    ReplaceSelf(s, sep);
  }

  /** The pieces of a split on a one-character separator never contain it. */
  lemma {:induction false} SplitPiecesFree(s: string, c: char)
    ensures forall p :: p in Split(s, [c]) ==> c !in p
    decreases |s|
  {
    if |s| < 1 {
    } else if s[..1] == [c] {
      SplitPiecesFree(s[1..], c);
    } else {
      SplitPiecesFree(s[1..], c);
      var rest := Split(s[1..], [c]);
      assert s[0] != c by { assert s[..1] == [s[0]]; }
      assert rest[0] in rest;
      forall p | p in Split(s, [c]) ensures c !in p {
        if p != [s[0]] + rest[0] {
          assert p in rest[1..];
        }
      }
    }
  }

  lemma {:induction false} SplitWithoutSeparator(a: string, c: char)
    requires c !in a
    ensures Split(a, [c]) == [a]
    decreases |a|
  {
    if |a| >= 1 {
      assert a[..1] == [a[0]];
      SplitWithoutSeparator(a[1..], c);
      assert a == [a[0]] + a[1..];
    }
  }

  lemma {:induction false} SplitAtSeparator(a: string, c: char, rest: string)
    requires c !in a
    ensures Split(a + [c] + rest, [c]) == [a] + Split(rest, [c])
    decreases |a|
  {
    var s := a + [c] + rest;
    if |a| == 0 {
      assert s[..1] == [c];
      assert s[1..] == rest;
    } else {
      assert s[..1] == [a[0]];
      assert s[1..] == a[1..] + [c] + rest;
      SplitAtSeparator(a[1..], c, rest);
      assert [a[0]] + a[1..] == a;
    }
  }

  /** Three separator-free segments in front of `rest` split off as three pieces. */
  lemma SplitThreeSegments(a: string, b: string, c: string, rest: string, sep: char)
    requires sep !in a && sep !in b && sep !in c
    ensures Split(a + [sep] + b + [sep] + c + [sep] + rest, [sep]) == [a, b, c] + Split(rest, [sep])
  {
    var t3 := c + [sep] + rest;
    var t2 := b + [sep] + t3;
    SplitAtSeparator(c, sep, rest);
    SplitAtSeparator(b, sep, t3);
    SplitAtSeparator(a, sep, t2);
    JoinThreeAssoc(a, b, c, rest, sep);
  }

  lemma JoinThreeAssoc(a: string, b: string, c: string, rest: string, sep: char)
    ensures a + [sep] + (b + [sep] + (c + [sep] + rest)) == a + [sep] + b + [sep] + c + [sep] + rest
  {
  }

  /** Splitting a join of separator-free pieces on a one-character separator
      gives back the pieces. */
  lemma {:induction false} SplitJoin(xs: seq<string>, c: char)
    requires |xs| >= 1
    requires forall p :: p in xs ==> c !in p
    ensures Split(Join(xs, [c]), [c]) == xs
    decreases |xs|
  {
    if |xs| == 1 {
      SplitWithoutSeparator(xs[0], c);
    } else {
      assert xs[0] in xs;
      forall p | p in xs[1..] ensures c !in p {
        assert p in xs;
      }
      SplitJoin(xs[1..], c);
      SplitAtSeparator(xs[0], c, Join(xs[1..], [c]));
      assert [xs[0]] + xs[1..] == xs;
    }
  }

  /** Replacing a one-character `pat` by a different one-character `repl`
      leaves no `pat` behind (`str.replace("@", ".")`). */
  lemma {:induction false} ReplaceCharRemoves(s: string, pat: char, repl: char)
    requires pat != repl
    ensures pat !in Replace(s, [pat], [repl])
    decreases |s|
  {
    if |s| >= 1 {
      ReplaceCharRemoves(s[1..], pat, repl);
      if s[..1] != [pat] {
        assert s[0] != pat by { assert s[..1] == [s[0]]; }
      }
    }
  }

  /** Python's `str.isspace()` characters. */
  predicate IsSpace(c: char) {
    c == ' ' || '\t' <= c <= '\r' || '\U{1C}' <= c <= '\U{1F}' || c == '\U{85}' || c == '\U{A0}'
    || c == '\U{1680}' || '\U{2000}' <= c <= '\U{200A}' || c == '\U{2028}' || c == '\U{2029}'
    || c == '\U{202F}' || c == '\U{205F}' || c == '\U{3000}'
  }

  function TrimStart(s: string): (r: string)
    ensures |r| <= |s| && r == s[|s| - |r|..]
    ensures r == [] || !IsSpace(r[0])
    ensures forall k :: 0 <= k < |s| - |r| ==> IsSpace(s[k])
  {
    if s != [] && IsSpace(s[0]) then TrimStart(s[1..]) else s
  }

  function TrimEnd(s: string): (r: string)
    ensures |r| <= |s| && r == s[..|r|]
    ensures r == [] || !IsSpace(r[|r| - 1])
    ensures forall k :: |r| <= k < |s| ==> IsSpace(s[k])
  {
    if s != [] && IsSpace(s[|s| - 1]) then TrimEnd(s[..|s| - 1]) else s
  }

  /** Python's `s.strip()`: leading and trailing whitespace removed. */
  function Strip(s: string): string {
    TrimEnd(TrimStart(s))
  }

  /** Python's `os.path.basename`: the text after the last '/'. */
  function Basename(path: string): (r: string)
    ensures '/' !in r
    ensures EndsWith(path, r)
    ensures |r| < |path| ==> path[|path| - |r| - 1] == '/'
  {
    if path == [] then []
    else if path[|path| - 1] == '/' then []
    else
      var init := path[..|path| - 1];
      var last := path[|path| - 1];
      var r := Basename(init);
      assert path == init + [last];
      assert init[|init| - |r|..] == r;
      assert path[|path| - |r| - 1..] == init[|init| - |r|..] + [last];
      assert |r| + 1 < |path| ==> path[|path| - |r| - 2] == init[|init| - |r| - 1];
      r + [last]
  }
}
