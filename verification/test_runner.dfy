/** The runner every check goes through: the discovered files, narrowing
    filters, the wildcard exclusion, running a per-file check and folding
    the per-file outcomes into one verdict. The file-system search is not
    modelled: the discovered files are an input. */
module TestRunners {
  import opened Wrappers
  import opened Text
  import opened Seqs
  import opened Pattern
  import opened FileContexts
  import opened Projects

  datatype Runner = Runner(name: string, files: seq<FileContext>)

  /** The outcome of a check: passed, or failed with the aggregated message. */
  datatype Verdict = Pass | Fail(message: string)

  /** `new TestRunner(glob, name, failIfNoMatches)` over the files the glob
      found: an empty match fails the check unless that is allowed. */
  function NewRunner(glob: string, name: string, failIfNoMatches: bool, discovered: seq<FileContext>): (r: Result<Runner, string>)
    ensures r.Failure? <==> failIfNoMatches && |discovered| == 0
    ensures r.Failure? ==> r.error == "No files found matching '" + glob + "'."
    ensures r.Success? ==> r.value.name == name && r.value.files == discovered
  {
    if failIfNoMatches && |discovered| == 0 then Failure("No files found matching '" + glob + "'.")
    else Success(Runner(name, discovered))
  }

  // ---------------------------------------------------------------------
  // Narrowing.
  // ---------------------------------------------------------------------

  /** `FilesWhere(predicate)`: keeps the files that satisfy `p`, in order. */
  function FilesWhere(r: Runner, p: FileContext -> bool): (q: Runner)
    ensures q.name == r.name
    ensures |q.files| <= |r.files|
    ensures forall i :: 0 <= i < |q.files| ==> q.files[i] in r.files && p(q.files[i])
    ensures forall i :: 0 <= i < |r.files| && p(r.files[i]) ==> r.files[i] in q.files
  {
    Runner(r.name, Filter(r.files, p))
  }

  /** Narrowing a list of files made of two parts narrows each part and
      keeps them in order. */
  lemma FilesWhereAppend(name: string, a: seq<FileContext>, b: seq<FileContext>, p: FileContext -> bool)
    ensures FilesWhere(Runner(name, a + b), p).files == FilesWhere(Runner(name, a), p).files + FilesWhere(Runner(name, b), p).files
  {
    FilterAppend(a, b, p);
  }

  /** A single file is kept exactly when it satisfies `p`. */
  lemma FilesWhereOne(name: string, f: FileContext, p: FileContext -> bool)
    ensures FilesWhere(Runner(name, [f]), p).files == (if p(f) then [f] else [])
  {
    FilterOne(f, p);
  }

  /** A kept file appears as often as it did before; a dropped one not at all. */
  lemma FilesWhereKeepsCounts(r: Runner, p: FileContext -> bool, f: FileContext)
    ensures multiset(FilesWhere(r, p).files)[f] == if p(f) then multiset(r.files)[f] else 0
  {
    FilterMultiplicity(r.files, p, f);
  }

  /** Chained narrowings select the files that satisfy all of them, and the
      order of the chain does not matter. */
  lemma NarrowingIsConjunction(r: Runner, p: FileContext -> bool, q: FileContext -> bool)
    ensures FilesWhere(FilesWhere(r, p), q) == FilesWhere(r, And(p, q))
    ensures FilesWhere(FilesWhere(r, p), q) == FilesWhere(FilesWhere(r, q), p)
  {
    FilterConjunction(r.files, p, q);
    FilterCommutes(r.files, p, q);
  }

  /** The project of a file, as the checks load it; the loader is a
      parameter standing in for reading and parsing the file. */
  type Loader = string -> Project

  /** The selections the narrowings make, one per kind of project. */
  function SdkFile(load: Loader): FileContext -> bool {
    (f: FileContext) => IsSdkProject(load(f.fullPath))
  }

  function TestFile(load: Loader): FileContext -> bool {
    (f: FileContext) => IsTestProject(load(f.fullPath))
  }

  function LibraryPackageFile(load: Loader, customIsPackable: Option<bool>): FileContext -> bool {
    (f: FileContext) => ProducesLibraryNuGetPackage(load(f.fullPath), customIsPackable)
  }

  function SourcePackageFile(load: Loader, producesSourcePackage: bool): FileContext -> bool {
    (f: FileContext) => ProducesSourcePackage(load(f.fullPath)) == producesSourcePackage
  }

  /** The files a regular expression leaves in, and those a wildcard leaves in. */
  function Unmatched(effective: string, isMatch: (string, string) -> bool): FileContext -> bool {
    (f: FileContext) => !isMatch(f.fullPath, effective)
  }

  function WildcardFree(wildcard: string, onWindows: bool): FileContext -> bool {
    (f: FileContext) => !MatchesSomewhere(WildcardPattern(wildcard, onWindows), f.fullPath)
  }

  function SdkProjects(r: Runner, load: Loader): (q: Runner)
    ensures q.name == r.name
    ensures q.files == Filter(r.files, SdkFile(load))
    ensures forall i :: 0 <= i < |q.files| ==> q.files[i] in r.files && IsSdkProject(load(q.files[i].fullPath))
    ensures forall i :: 0 <= i < |r.files| && IsSdkProject(load(r.files[i].fullPath)) ==> r.files[i] in q.files
  {
    FilesWhere(r, SdkFile(load))
  }

  function TestProjects(r: Runner, load: Loader): (q: Runner)
    ensures q.name == r.name
    ensures q.files == Filter(r.files, TestFile(load))
    ensures forall i :: 0 <= i < |q.files| ==> q.files[i] in r.files && IsTestProject(load(q.files[i].fullPath))
    ensures forall i :: 0 <= i < |r.files| && IsTestProject(load(r.files[i].fullPath)) ==> r.files[i] in q.files
  {
    FilesWhere(r, TestFile(load))
  }

  /** `customIsPackable` is the `IsPackable` setting of
      `src/Custom.Build.props`, read once for the whole repository. */
  function ProjectsProducingLibraryNuGetPackages(r: Runner, load: Loader, customIsPackable: Option<bool>): (q: Runner)
    ensures q.name == r.name
    ensures q.files == Filter(r.files, LibraryPackageFile(load, customIsPackable))
    ensures forall i :: 0 <= i < |q.files| ==>
      q.files[i] in r.files && ProducesLibraryNuGetPackage(load(q.files[i].fullPath), customIsPackable)
    ensures forall i :: 0 <= i < |r.files| && ProducesLibraryNuGetPackage(load(r.files[i].fullPath), customIsPackable) ==>
      r.files[i] in q.files
  {
    FilesWhere(r, LibraryPackageFile(load, customIsPackable))
  }

  function ProjectsProducingSourcePackagesIs(r: Runner, load: Loader, producesSourcePackage: bool): (q: Runner)
    ensures q.name == r.name
    ensures q.files == Filter(r.files, SourcePackageFile(load, producesSourcePackage))
    ensures forall i :: 0 <= i < |q.files| ==>
      q.files[i] in r.files && ProducesSourcePackage(load(q.files[i].fullPath)) == producesSourcePackage
    ensures forall i :: 0 <= i < |r.files| && ProducesSourcePackage(load(r.files[i].fullPath)) == producesSourcePackage ==>
      r.files[i] in q.files
  {
    FilesWhere(r, SourcePackageFile(load, producesSourcePackage))
  }

  /** The SDK-test-project selection the checks use is the same in either order. */
  lemma SdkAndTestSelectionCommute(r: Runner, load: Loader)
    ensures TestProjects(SdkProjects(r, load), load) == SdkProjects(TestProjects(r, load), load)
    ensures forall i :: 0 <= i < |TestProjects(SdkProjects(r, load), load).files| ==>
      var f := TestProjects(SdkProjects(r, load), load).files[i];
      IsSdkProject(load(f.fullPath)) && IsTestProject(load(f.fullPath))
  {
    NarrowingIsConjunction(r, SdkFile(load), TestFile(load));
  }

  /** Source packages and non-source packages partition the files. */
  lemma SourcePackageSelectionsPartition(r: Runner, load: Loader, f: FileContext)
    requires f in r.files
    ensures f in ProjectsProducingSourcePackagesIs(r, load, true).files
        <==> f !in ProjectsProducingSourcePackagesIs(r, load, false).files
  {
  }

  // ---------------------------------------------------------------------
  // Regular-expression exclusion.
  // ---------------------------------------------------------------------

  /** `pattern.Replace("\\\\", "/")`: each escaped backslash, read left to
      right without overlap, becomes a forward slash. */
  function CollapseBackslashPairs(s: string): (r: string)
    ensures |r| <= |s|
    ensures '\\' !in s ==> r == s
    ensures |s| > 0 ==> |r| > 0 && r[0] == (if |s| >= 2 && s[0] == '\\' && s[1] == '\\' then '/' else s[0])
    ensures forall i :: 0 <= i < |r| - 1 ==> !(r[i] == '\\' && r[i + 1] == '\\')
  {
    if |s| == 0 then ""
    else if |s| >= 2 && s[0] == '\\' && s[1] == '\\' then
      var rest := CollapseBackslashPairs(s[2..]);
      assert forall i :: 1 <= i < |s| ==> s[i] in s[1..];
      assert forall c :: c in s[2..] ==> c in s;
      "/" + rest
    else
      var rest := CollapseBackslashPairs(s[1..]);
      assert forall c :: c in s[1..] ==> c in s;
      [s[0]] + rest
  }

  /** An escaped backslash in a pattern reads as a forward slash. */
  lemma {:induction false} EscapedBackslashIsSlash(a: string, b: string)
    requires '\\' !in a
    ensures CollapseBackslashPairs(a + "\\\\" + b) == a + "/" + CollapseBackslashPairs(b)
  {
    if |a| > 0 {
      assert (a + "\\\\" + b)[1..] == a[1..] + "\\\\" + b;
      assert '\\' !in a[1..] by {
        assert forall c :: c in a[1..] ==> c in a;
      }
      EscapedBackslashIsSlash(a[1..], b);
    } else {
      assert (a + "\\\\" + b)[2..] == b;
    }
  }

  /** `IgnoreRegex(pattern)`: drops every file whose full path the pattern
      matches; off Windows escaped backslashes in the pattern become `/`.
      `isMatch(input, pattern)` is the regular expression engine, applied
      with the single-line, ignore-case and culture-invariant options. */
  function IgnoreRegex(r: Runner, pattern: string, onWindows: bool, isMatch: (string, string) -> bool): (q: Runner)
    ensures q.name == r.name
    ensures q.files == Filter(r.files, Unmatched(if onWindows then pattern else CollapseBackslashPairs(pattern), isMatch))
    ensures var effective := if onWindows then pattern else CollapseBackslashPairs(pattern);
      && (forall i :: 0 <= i < |q.files| ==> q.files[i] in r.files && !isMatch(q.files[i].fullPath, effective))
      && (forall i :: 0 <= i < |r.files| && !isMatch(r.files[i].fullPath, effective) ==> r.files[i] in q.files)
  {
    var effective := if onWindows then pattern else CollapseBackslashPairs(pattern);
    FilesWhere(r, Unmatched(effective, isMatch))
  }

  // ---------------------------------------------------------------------
  // Wildcard exclusion.
  // ---------------------------------------------------------------------

  /** The regular expression `IgnoreWildcard` builds, one atom per wildcard
      character: `*` is any run, `?` any one character, a backslash stands
      for `/` off Windows, and everything else is itself. */
  function WildcardPattern(wildcard: string, onWindows: bool): (p: seq<Atom>)
    ensures |p| == |wildcard|
    ensures forall i :: 0 <= i < |wildcard| && wildcard[i] == '*' ==> p[i] == Rep({})
    ensures forall i :: 0 <= i < |wildcard| && wildcard[i] == '?' ==> p[i] == Class({})
    ensures forall i :: 0 <= i < |wildcard| && wildcard[i] == '\\' && !onWindows ==> p[i] == Lit('/')
    ensures forall i :: 0 <= i < |wildcard| && wildcard[i] != '*' && wildcard[i] != '?' && (wildcard[i] != '\\' || onWindows) ==>
      p[i] == Lit(wildcard[i])
  {
    if |wildcard| == 0 then []
    else
      var c := wildcard[0];
      var atom :=
        if c == '*' then Rep({})
        else if c == '?' then Class({})
        else if c == '\\' && !onWindows then Lit('/')
        else Lit(c);
      [atom] + WildcardPattern(wildcard[1..], onWindows)
  }

  /** `IgnoreWildcard(expression)`: drops every file whose full path contains
      a match of the wildcard, ignoring case. */
  function IgnoreWildcard(r: Runner, wildcard: string, onWindows: bool): (q: Runner)
    ensures q.name == r.name
    ensures q.files == Filter(r.files, WildcardFree(wildcard, onWindows))
    ensures forall i :: 0 <= i < |q.files| ==>
      q.files[i] in r.files && !MatchesSomewhere(WildcardPattern(wildcard, onWindows), q.files[i].fullPath)
    ensures forall i :: 0 <= i < |r.files| && !MatchesSomewhere(WildcardPattern(wildcard, onWindows), r.files[i].fullPath) ==>
      r.files[i] in q.files
  {
    FilesWhere(r, WildcardFree(wildcard, onWindows))
  }

  predicate PlainWildcard(wildcard: string) {
    forall i :: 0 <= i < |wildcard| ==> wildcard[i] != '*' && wildcard[i] != '?' && wildcard[i] != '\\'
  }

  lemma {:induction false} PlainWildcardIsLiteral(wildcard: string, onWindows: bool)
    requires PlainWildcard(wildcard)
    ensures WildcardPattern(wildcard, onWindows) == Literal(wildcard)
  {
    if |wildcard| > 0 {
      PlainWildcardIsLiteral(wildcard[1..], onWindows);
    }
  }

  /** A wildcard without `*`, `?` or a backslash drops exactly the files
      whose path holds it as a substring, ignoring case. */
  lemma PlainWildcardDropsContainingPaths(r: Runner, wildcard: string, onWindows: bool, f: FileContext)
    requires PlainWildcard(wildcard)
    requires f in r.files
    ensures f !in IgnoreWildcard(r, wildcard, onWindows).files
        <==> exists i, j :: 0 <= i <= j <= |f.fullPath| && EqualsIgnoreCase(f.fullPath[i..j], wildcard)
  {
    PlainWildcardIsLiteral(wildcard, onWindows);
    forall i, j | 0 <= i <= j <= |f.fullPath|
      ensures Match(Literal(wildcard), f.fullPath[i..j]) <==> EqualsIgnoreCase(f.fullPath[i..j], wildcard)
    {
      LiteralMeaning(wildcard, f.fullPath[i..j]);
    }
  }

  /** The pattern of a concatenation is the concatenation of the patterns. */
  lemma {:induction false} WildcardPatternAppend(a: string, b: string, onWindows: bool)
    ensures WildcardPattern(a + b, onWindows) == WildcardPattern(a, onWindows) + WildcardPattern(b, onWindows)
  {
    if |a| == 0 {
      assert a + b == b;
    } else {
      assert (a + b)[0] == a[0];
      assert (a + b)[1..] == a[1..] + b;
      WildcardPatternAppend(a[1..], b, onWindows);
    }
  }

  /** The pattern of `u`, one character `c`, then `v`. */
  lemma WildcardSplice(u: string, c: char, v: string, onWindows: bool)
    ensures WildcardPattern(u + [c] + v, onWindows)
         == WildcardPattern(u, onWindows) + WildcardPattern([c], onWindows) + WildcardPattern(v, onWindows)
  {
    WildcardPatternAppend(u + [c], v, onWindows);
    WildcardPatternAppend(u, [c], onWindows);
  }

  /** Off Windows a backslash between two plain wildcards stands for `/`;
      on Windows it is itself. */
  lemma BackslashWildcard(u: string, v: string, onWindows: bool)
    requires PlainWildcard(u) && PlainWildcard(v)
    ensures WildcardPattern(u + "\\" + v, onWindows) == Literal(u + [if onWindows then '\\' else '/'] + v)
  {
    var sep := if onWindows then '\\' else '/';
    WildcardSplice(u, '\\', v, onWindows);
    PlainWildcardIsLiteral(u, onWindows);
    PlainWildcardIsLiteral(v, onWindows);
    assert WildcardPattern("\\", onWindows) == [Lit(sep)];
    LiteralAppend(u, [sep]);
    LiteralAppend(u + [sep], v);
  }

  /** A star between two plain wildcards matches exactly the strings that
      start with the first and end with the second. */
  lemma StarWildcardMeaning(u: string, v: string, onWindows: bool, s: string)
    requires PlainWildcard(u) && PlainWildcard(v)
    ensures Match(WildcardPattern(u + "*" + v, onWindows), s) <==> StartsAndEnds(s, u, v)
  {
    WildcardSplice(u, '*', v, onWindows);
    PlainWildcardIsLiteral(u, onWindows);
    PlainWildcardIsLiteral(v, onWindows);
    assert WildcardPattern("*", onWindows) == [Rep({})];
    RunBetweenLiterals(u, v, s);
  }

  /** A `?` between two plain wildcards matches exactly the strings made of
      the first, any one character and the second, ignoring case. */
  lemma QuestionWildcardMeaning(u: string, v: string, onWindows: bool, s: string)
    requires PlainWildcard(u) && PlainWildcard(v)
    ensures Match(WildcardPattern(u + "?" + v, onWindows), s) <==>
      |s| == |u| + 1 + |v| && EqualsIgnoreCase(s[..|u|], u) && EqualsIgnoreCase(s[|s| - |v|..], v)
  {
    WildcardSplice(u, '?', v, onWindows);
    PlainWildcardIsLiteral(u, onWindows);
    PlainWildcardIsLiteral(v, onWindows);
    assert WildcardPattern("?", onWindows) == [Class({})];
    OneBetweenLiterals(u, v, s);
  }

  /** `u*v` drops exactly the files with a piece of path that starts with
      `u` and ends with `v`, ignoring case. */
  lemma StarWildcardDropsPaths(r: Runner, u: string, v: string, onWindows: bool, f: FileContext)
    requires PlainWildcard(u) && PlainWildcard(v)
    requires f in r.files
    ensures f !in IgnoreWildcard(r, u + "*" + v, onWindows).files <==>
      exists i, j :: 0 <= i <= j <= |f.fullPath| && StartsAndEnds(f.fullPath[i..j], u, v)
  {
    forall i, j | 0 <= i <= j <= |f.fullPath|
      ensures Match(WildcardPattern(u + "*" + v, onWindows), f.fullPath[i..j]) <==> StartsAndEnds(f.fullPath[i..j], u, v)
    {
      StarWildcardMeaning(u, v, onWindows, f.fullPath[i..j]);
    }
  }

  /** A lone `*` drops every file. */
  lemma StarDropsEverything(r: Runner, onWindows: bool)
    ensures IgnoreWildcard(r, "*", onWindows).files == []
  {
    var p := WildcardPattern("*", onWindows);
    assert p == [Rep({})];
    var q := IgnoreWildcard(r, "*", onWindows);
    if |q.files| > 0 {
      var f := q.files[0];
      assert Match(p, f.fullPath[0..0]);
      assert false;
    }
  }

  // ---------------------------------------------------------------------
  // Running a check and aggregating.
  // ---------------------------------------------------------------------

  /** A per-file check: the `Fail` calls it makes on the file, in order, or
      the exception it throws. */
  type Check = FileContext -> Result<seq<Option<string>>, string>

  /** Applies the check to every file in order; the first exception aborts. */
  function Checked(files: seq<FileContext>, check: Check): (r: Result<seq<FileContext>, string>)
    ensures r.Success? <==> forall i :: 0 <= i < |files| ==> check(files[i]).Success?
    ensures r.Success? ==> |r.value| == |files|
    ensures r.Success? ==> forall i :: 0 <= i < |files| ==> r.value[i] == FailAll(files[i], check(files[i]).value)
  {
    if |files| == 0 then Success([])
    else
      var calls :- check(files[0]);
      var rest :- Checked(files[1..], check);
      Success([FailAll(files[0], calls)] + rest)
  }

  /** The report lines of one failed file: its relative path alone when no
      reason was given, else one "path - reason" line per reason. */
  function FileLines(f: FileContext): (r: seq<string>)
    ensures |r| >= 1
    ensures |f.failReasons| == 0 ==> r == [f.relativePath]
    ensures |f.failReasons| > 0 ==> |r| == |f.failReasons|
    ensures |f.failReasons| > 0 ==> forall k :: 0 <= k < |r| ==> r[k] == f.relativePath + " - " + f.failReasons[k]
  {
    if |f.failReasons| == 0 then [f.relativePath]
    else seq(|f.failReasons|, k requires 0 <= k < |f.failReasons| => f.relativePath + " - " + f.failReasons[k])
  }

  /** The number of report lines a list of files contributes. */
  function LineCount(files: seq<FileContext>): nat {
    if |files| == 0 then 0
    else (if files[0].failed then (if |files[0].failReasons| == 0 then 1 else |files[0].failReasons|) else 0)
         + LineCount(files[1..])
  }

  /** `line` starts with the path of a failed file of `files`. */
  predicate LineOfFailed(files: seq<FileContext>, line: string) {
    exists i :: 0 <= i < |files| && files[i].failed && StartsWith(line, files[i].relativePath)
  }

  lemma LineOfFailedShift(files: seq<FileContext>, line: string)
    requires |files| > 0 && LineOfFailed(files[1..], line)
    ensures LineOfFailed(files, line)
  {
    var i :| 0 <= i < |files[1..]| && files[1..][i].failed && StartsWith(line, files[1..][i].relativePath);
    assert files[i + 1] == files[1..][i];
  }

  /** Every report line of a file starts with its path. */
  lemma FileLinesStartWithPath(f: FileContext)
    ensures forall k :: 0 <= k < |FileLines(f)| ==> StartsWith(FileLines(f)[k], f.relativePath)
  {
    var r := FileLines(f);
    forall k | 0 <= k < |r|
      ensures StartsWith(r[k], f.relativePath)
    {
      if |f.failReasons| > 0 {
        assert r[k][..|f.relativePath|] == f.relativePath;
      }
    }
  }

  /** The lines of every failed file, in file order. */
  function ReportLines(files: seq<FileContext>): (r: seq<string>)
    ensures |r| == LineCount(files)
    ensures |r| == 0 <==> forall i :: 0 <= i < |files| ==> !files[i].failed
    ensures forall k :: 0 <= k < |r| ==> LineOfFailed(files, r[k])
  {
    if |files| == 0 then []
    else
      var rest := ReportLines(files[1..]);
      var mine := if files[0].failed then FileLines(files[0]) else [];
      var r := mine + rest;
      FileLinesStartWithPath(files[0]);
      assert forall k :: 0 <= k < |mine| ==> LineOfFailed(files, r[k]) by {
        forall k | 0 <= k < |mine|
          ensures LineOfFailed(files, r[k])
        {
          assert r[k] == mine[k];
        }
      }
      assert forall k :: |mine| <= k < |r| ==> LineOfFailed(files, r[k]) by {
        forall k | |mine| <= k < |r|
          ensures LineOfFailed(files, r[k])
        {
          assert r[k] == rest[k - |mine|];
          LineOfFailedShift(files, r[k]);
        }
      }
      assert forall i :: 1 <= i < |files| ==> files[i] == files[1..][i - 1];
      r
  }

  /** `ProcessResults`: passes when no file failed; otherwise one message
      starting with the check name, one "  > " line per report line. */
  function ProcessResults(name: string, files: seq<FileContext>): (v: Verdict)
    ensures v.Pass? <==> forall i :: 0 <= i < |files| ==> !files[i].failed
    ensures v.Fail? ==> v.message == name + ":\r\n  > " + Join("\r\n  > ", ReportLines(files))
  {
    var lines := ReportLines(files);
    if |lines| == 0 then Pass else Fail(name + ":\r\n  > " + Join("\r\n  > ", lines))
  }

  /** `Run(testAction)`: runs the check on every remaining file, then
      aggregates. An exception from the check is the outcome instead. The
      check passes exactly when no file had failed before and the check
      called `Fail` on none of them. */
  function Run(r: Runner, check: Check): (v: Result<Verdict, string>)
    ensures v.Success? <==> forall i :: 0 <= i < |r.files| ==> check(r.files[i]).Success?
    ensures v.Success? ==> (v.value.Pass? <==>
      forall i :: 0 <= i < |r.files| ==> !r.files[i].failed && |check(r.files[i]).value| == 0)
  {
    var updated :- Checked(r.files, check);
    forall i | 0 <= i < |r.files|
      ensures updated[i].failed <==> r.files[i].failed || |check(r.files[i]).value| > 0
    {
      FailAllKeepsReasons(r.files[i], check(r.files[i]).value);
    }
    Success(ProcessResults(r.name, updated))
  }
}
