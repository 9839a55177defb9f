/** Ignore rules of the repository configuration: a check name, a path glob
    and an optional classification code. The glob is translated to a .NET
    regular expression (`.` escaped, `**` to `.*`, `*` to `[^/]+`, anchored at
    both ends, case-insensitive); the glob `*` alone matches everything. */
module IgnoreRules {
  import opened Wrappers
  import opened Text
  import opened Pattern

  datatype IgnoreRule = IgnoreRule(test: string, path: string, code: Option<string>)

  /** A glob after the `\*{1,2}` replacement pass: each maximal run of `*`
      is cut left to right into `**` pairs and, for an odd run, one `*`. */
  datatype GlobToken = Char(c: char) | Star | DoubleStar

  /** Characters that a .NET regular expression would read as syntax, other
      than the `.` and `*` that the translation handles. */
  predicate IsRegexSyntax(c: char) {
    c in {'\\', '^', '$', '+', '?', '(', ')', '[', ']', '{', '}', '|'}
  }

  /** The globs this model covers: no regex syntax besides `.` and `*`. */
  predicate PlainGlob(glob: string) {
    forall i :: 0 <= i < |glob| ==> !IsRegexSyntax(glob[i])
  }

  /** No `*` token is directly followed by another star token: a longer run
      would have been cut into `**` first. */
  predicate StarsCutInPairs(ts: seq<GlobToken>) {
    forall i :: 0 <= i < |ts| - 1 && ts[i] == Star ==> ts[i + 1].Char?
  }

  function Render(ts: seq<GlobToken>): string {
    if |ts| == 0 then ""
    else
      (match ts[0]
       case Char(c) => [c]
       case Star => "*"
       case DoubleStar => "**") + Render(ts[1..])
  }

  function Tokenize(glob: string): (ts: seq<GlobToken>)
    ensures Render(ts) == glob
    ensures StarsCutInPairs(ts)
    ensures forall i :: 0 <= i < |ts| ==> ts[i] != Char('*')
    ensures |glob| > 0 && glob[0] != '*' ==> |ts| > 0 && ts[0] == Char(glob[0])
  {
    if |glob| == 0 then []
    else if glob[0] == '*' then
      if |glob| > 1 && glob[1] == '*' then [DoubleStar] + Tokenize(glob[2..])
      else
        var rest := Tokenize(glob[1..]);
        assert |glob| > 1 ==> |rest| > 0 && rest[0].Char?;
        [Star] + rest
    else [Char(glob[0])] + Tokenize(glob[1..])
  }

  function Stars(n: nat): string
    ensures |Stars(n)| == n
  {
    if n == 0 then "" else "*" + Stars(n - 1)
  }

  function Repeat<T>(x: T, n: nat): (r: seq<T>)
    ensures |r| == n
  {
    if n == 0 then [] else [x] + Repeat(x, n - 1)
  }

  /** A run of `n` stars becomes `n / 2` double stars, then one single star
      when `n` is odd: `***` is `**` followed by `*`. */
  lemma {:induction false} StarRun(n: nat)
    ensures Tokenize(Stars(n)) == Repeat(DoubleStar, n / 2) + (if n % 2 == 1 then [Star] else [])
  {
    if n >= 2 {
      StarRun(n - 2);
      StarRunStep(n);
    } else if n == 1 {
      StarRunOne();
    }
  }

  /** Two more stars put one more double star in front. */
  lemma StarRunStep(n: nat)
    requires n >= 2
    requires Tokenize(Stars(n - 2)) == Repeat(DoubleStar, (n - 2) / 2) + (if (n - 2) % 2 == 1 then [Star] else [])
    ensures Tokenize(Stars(n)) == Repeat(DoubleStar, n / 2) + (if n % 2 == 1 then [Star] else [])
  {
    StarsOpen(n);
    TokenizeDoubleStar(Stars(n));
    var tail: seq<GlobToken> := if n % 2 == 1 then [Star] else [];
    assert (n - 2) % 2 == n % 2 && (n - 2) / 2 == n / 2 - 1;
    var pairs := Repeat(DoubleStar, n / 2 - 1);
    assert Repeat(DoubleStar, n / 2) == [DoubleStar] + pairs;
    assert [DoubleStar] + (pairs + tail) == ([DoubleStar] + pairs) + tail;
  }

  lemma StarRunOne()
    ensures Tokenize(Stars(1)) == [Star]
  {
    var s := Stars(1);
    assert s == "*" + Stars(0);
    assert |s| == 1 && s[0] == '*' && s[1..] == [];
    assert Tokenize(s) == [Star] + Tokenize(s[1..]);
  }

  lemma StarsOpen(n: nat)
    requires n >= 2
    ensures Stars(n)[0] == '*' && Stars(n)[1] == '*' && Stars(n)[2..] == Stars(n - 2)
  {
    var t := Stars(n - 2);
    assert Stars(n - 1) == "*" + t;
    assert Stars(n) == "*" + ("*" + t);
    assert ("*" + ("*" + t))[2..] == t;
  }

  /** A glob that opens with `**` starts with a double star token. */
  lemma TokenizeDoubleStar(glob: string)
    requires |glob| >= 2 && glob[0] == '*' && glob[1] == '*'
    ensures Tokenize(glob) == [DoubleStar] + Tokenize(glob[2..])
  {
  }

  function CompileToken(t: GlobToken): seq<Atom> {
    match t
    case Char(c) => [Lit(c)]
    case Star => [Class({'/'}), Rep({'/'})]
    case DoubleStar => [Rep({'\n'})]
  }

  /** The regular expression between `^` and `$`. */
  function Compile(ts: seq<GlobToken>): (p: seq<Atom>)
    ensures Caseless(p)
  {
    if |ts| == 0 then [] else CompileToken(ts[0]) + Compile(ts[1..])
  }

  /** `Regex.IsMatch` for `^p$`: without the multi-line option `$` also
      matches just before a final line feed. */
  predicate AnchoredIsMatch(p: seq<Atom>, s: string) {
    Match(p, s) || (|s| > 0 && s[|s| - 1] == '\n' && Match(p, s[..|s| - 1]))
  }

  /** The regex that the rule's lazy initialiser builds, applied to `path`. */
  predicate PathMatches(glob: string, path: string)
    requires PlainGlob(glob)
  {
    glob == "*" || AnchoredIsMatch(Compile(Tokenize(glob)), path)
  }

  /** `IgnoreRule.AppliesTo`: the rule's code, when it has one, must equal
      the supplied code exactly, and then its glob must match the path. */
  function AppliesTo(rule: IgnoreRule, code: string, path: string): (r: bool)
    requires PlainGlob(rule.path)
    ensures rule.code.Some? && rule.code.value != code ==> !r
    ensures rule.code.None? || rule.code.value == code ==> (r <==> PathMatches(rule.path, path))
    ensures rule.path == "*" ==> (r <==> rule.code.None? || rule.code.value == code)
  {
    if rule.code.None? || rule.code.value == code then PathMatches(rule.path, path) else false
  }

  // ---------------------------------------------------------------------
  // The documented glob semantics, stated on tokens without regexes.
  // ---------------------------------------------------------------------

  ghost predicate NoChar(s: string, c: char) {
    forall i :: 0 <= i < |s| ==> s[i] != c
  }

  /** `*` stands for one or more characters other than `/`; `**` for any
      characters other than a line feed (the regex `.`), `/` included; any
      other character stands for itself, ignoring case. */
  ghost predicate GlobMatch(ts: seq<GlobToken>, s: string)
    decreases |ts|
  {
    if |ts| == 0 then |s| == 0
    else match ts[0]
      case Char(c) => |s| > 0 && Lower(s[0]) == Lower(c) && GlobMatch(ts[1..], s[1..])
      case Star => exists k :: 1 <= k <= |s| && NoChar(s[..k], '/') && GlobMatch(ts[1..], s[k..])
      case DoubleStar => exists k :: 0 <= k <= |s| && NoChar(s[..k], '\n') && GlobMatch(ts[1..], s[k..])
  }

  /** The compiled regex accepts exactly what the glob semantics describe. */
  lemma {:induction false} CompileIsFaithful(ts: seq<GlobToken>, s: string)
    ensures Match(Compile(ts), s) <==> GlobMatch(ts, s)
    decreases |ts|
  {
    if |ts| > 0 {
      forall k | 0 <= k <= |s|
        ensures Match(Compile(ts[1..]), s[k..]) <==> GlobMatch(ts[1..], s[k..])
      {
        CompileIsFaithful(ts[1..], s[k..]);
      }
      match ts[0]
      case Char(c) => CharStep(c, ts[1..], s);
      case Star => StarStep(ts[1..], s);
      case DoubleStar => DoubleStarStep(ts[1..], s);
    }
  }

  lemma CharStep(c: char, tail: seq<GlobToken>, s: string)
    requires forall k :: 0 <= k <= |s| ==> (Match(Compile(tail), s[k..]) <==> GlobMatch(tail, s[k..]))
    ensures Match(Compile([Char(c)] + tail), s) <==> GlobMatch([Char(c)] + tail, s)
  {
    var ts := [Char(c)] + tail;
    assert ts[0] == Char(c) && ts[1..] == tail;
    assert Compile(ts) == [Lit(c)] + Compile(tail);
    assert ([Lit(c)] + Compile(tail))[1..] == Compile(tail);
    if |s| > 0 {
      assert s[1..] == s[1..];
    }
  }

  lemma StarStep(tail: seq<GlobToken>, s: string)
    requires forall k :: 0 <= k <= |s| ==> (Match(Compile(tail), s[k..]) <==> GlobMatch(tail, s[k..]))
    ensures Match(Compile([Star] + tail), s) <==> GlobMatch([Star] + tail, s)
  {
    var ts := [Star] + tail;
    var head := [Class({'/'}), Rep({'/'})];
    assert ts[0] == Star && ts[1..] == tail;
    assert Compile(ts) == head + Compile(tail);
    if Match(Compile(ts), s) {
      ConcatSplit(head, Compile(tail), s);
      var k :| 0 <= k <= |s| && Match(head, s[..k]) && Match(Compile(tail), s[k..]);
      PlusMeaning({'/'}, s[..k]);
      assert 1 <= k <= |s| && NoChar(s[..k], '/') && GlobMatch(tail, s[k..]);
    }
    if GlobMatch(ts, s) {
      var k :| 1 <= k <= |s| && NoChar(s[..k], '/') && GlobMatch(tail, s[k..]);
      PlusMeaning({'/'}, s[..k]);
      ConcatJoin(head, Compile(tail), s, k);
    }
  }

  lemma DoubleStarStep(tail: seq<GlobToken>, s: string)
    requires forall k :: 0 <= k <= |s| ==> (Match(Compile(tail), s[k..]) <==> GlobMatch(tail, s[k..]))
    ensures Match(Compile([DoubleStar] + tail), s) <==> GlobMatch([DoubleStar] + tail, s)
  {
    var ts := [DoubleStar] + tail;
    var head := [Rep({'\n'})];
    assert ts[0] == DoubleStar && ts[1..] == tail;
    assert Compile(ts) == head + Compile(tail);
    if Match(Compile(ts), s) {
      ConcatSplit(head, Compile(tail), s);
      var k :| 0 <= k <= |s| && Match(head, s[..k]) && Match(Compile(tail), s[k..]);
      RepMeaning({'\n'}, s[..k]);
      assert 0 <= k <= |s| && NoChar(s[..k], '\n') && GlobMatch(tail, s[k..]);
    }
    if GlobMatch(ts, s) {
      var k :| 0 <= k <= |s| && NoChar(s[..k], '\n') && GlobMatch(tail, s[k..]);
      RepMeaning({'\n'}, s[..k]);
      ConcatJoin(head, Compile(tail), s, k);
    }
  }

  /** A glob without stars matches a path (that does not end in a line feed)
      exactly when the two are equal ignoring case: the match is anchored at
      both ends and `.` is a literal dot. */
  lemma StarFreeGlob(glob: string, path: string)
    requires PlainGlob(glob) && '*' !in glob
    requires |path| == 0 || path[|path| - 1] != '\n'
    ensures PathMatches(glob, path) <==> EqualsIgnoreCase(path, glob)
  {
    StarFreeCompilesToLiteral(glob);
    LiteralMeaning(glob, path);
  }

  lemma {:induction false} StarFreeCompilesToLiteral(glob: string)
    requires '*' !in glob
    ensures Compile(Tokenize(glob)) == Literal(glob)
  {
    if |glob| > 0 {
      assert '*' !in glob[1..];
      StarFreeCompilesToLiteral(glob[1..]);
    }
  }

  /** Path matching ignores the letter case of the path. */
  lemma PathMatchIgnoresCase(glob: string, path: string)
    requires PlainGlob(glob)
    ensures PathMatches(glob, path) == PathMatches(glob, LowerAll(path))
  {
    var p := Compile(Tokenize(glob));
    var lower := LowerAll(path);
    MatchIgnoresCase(p, path);
    if |path| > 0 {
      assert lower[..|path| - 1] == LowerAll(path[..|path| - 1]);
      MatchIgnoresCase(p, path[..|path| - 1]);
      assert lower[|path| - 1] == '\n' <==> path[|path| - 1] == '\n';
    }
  }
}
