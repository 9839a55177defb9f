/** The fragment of .NET regular expressions that the two path-pattern
    translators of the checker produce: case-insensitive literals, a single
    character outside a set (`.` or `[^/]`) and a run of characters outside a
    set (`.*`; `[^/]+` is written as one `[^/]` followed by a run).
    Matching is defined directly by recursion; no regex engine is modelled. */
module Pattern {
  import opened Text

  datatype Atom =
    | Lit(c: char)              // a literal character, compared ignoring case
    | Class(except: set<char>)  // exactly one character not in `except`
    | Rep(except: set<char>)    // zero or more characters not in `except`

  /** `p` matches the whole of `s`. */
  predicate Match(p: seq<Atom>, s: string)
    decreases |p|, |s|
  {
    if |p| == 0 then |s| == 0
    else match p[0]
      case Lit(c) => |s| > 0 && Lower(s[0]) == Lower(c) && Match(p[1..], s[1..])
      case Class(e) => |s| > 0 && s[0] !in e && Match(p[1..], s[1..])
      case Rep(e) => Match(p[1..], s) || (|s| > 0 && s[0] !in e && Match(p, s[1..]))
  }

  /** Some substring of `s` matches `p`: an unanchored `Regex.IsMatch`. */
  predicate MatchesSomewhere(p: seq<Atom>, s: string) {
    exists i, j :: 0 <= i <= j <= |s| && Match(p, s[i..j])
  }

  /** A pattern of literals only. */
  function Literal(t: string): (p: seq<Atom>)
    ensures |p| == |t|
    ensures forall i :: 0 <= i < |t| ==> p[i] == Lit(t[i])
  {
    if |t| == 0 then [] else [Lit(t[0])] + Literal(t[1..])
  }

  lemma LiteralAppend(a: string, b: string)
    ensures Literal(a + b) == Literal(a) + Literal(b)
  {
    var p := Literal(a + b);
    var q := Literal(a) + Literal(b);
    assert forall i :: 0 <= i < |p| ==> p[i] == q[i];
  }

  /** No excluded set of `p` holds an ASCII letter, so case folding the
      subject cannot change which characters the sets admit. */
  predicate Caseless(p: seq<Atom>) {
    forall i, c :: 0 <= i < |p| && !p[i].Lit? && c in p[i].except ==> Lower(c) == c && !('a' <= c <= 'z')
  }

  // ---------------------------------------------------------------------
  // Concatenation: the whole-string matcher splits at some point.
  // ---------------------------------------------------------------------

  lemma {:induction false} ConcatSplit(a: seq<Atom>, b: seq<Atom>, s: string)
    requires Match(a + b, s)
    ensures exists k :: 0 <= k <= |s| && Match(a, s[..k]) && Match(b, s[k..])
    decreases |a|, |s|
  {
    if |a| == 0 {
      assert a + b == b;
      assert Match(a, s[..0]) && Match(b, s[0..]);
    } else {
      assert (a + b)[0] == a[0];
      assert (a + b)[1..] == a[1..] + b;
      match a[0]
      case Lit(c) =>
        ConcatSplit(a[1..], b, s[1..]);
        var k' :| 0 <= k' <= |s| - 1 && Match(a[1..], s[1..][..k']) && Match(b, s[1..][k'..]);
        assert s[..k' + 1][1..] == s[1..][..k'];
        assert s[k' + 1..] == s[1..][k'..];
        assert Match(a, s[..k' + 1]);
      case Class(e) =>
        ConcatSplit(a[1..], b, s[1..]);
        var k' :| 0 <= k' <= |s| - 1 && Match(a[1..], s[1..][..k']) && Match(b, s[1..][k'..]);
        assert s[..k' + 1][1..] == s[1..][..k'];
        assert s[k' + 1..] == s[1..][k'..];
        assert Match(a, s[..k' + 1]);
      case Rep(e) =>
        if Match(a[1..] + b, s) {
          ConcatSplit(a[1..], b, s);
          var k :| 0 <= k <= |s| && Match(a[1..], s[..k]) && Match(b, s[k..]);
          assert Match(a, s[..k]);
        } else {
          assert |s| > 0 && s[0] !in e && Match(a + b, s[1..]);
          ConcatSplit(a, b, s[1..]);
          var k' :| 0 <= k' <= |s| - 1 && Match(a, s[1..][..k']) && Match(b, s[1..][k'..]);
          assert s[..k' + 1][1..] == s[1..][..k'];
          assert s[k' + 1..] == s[1..][k'..];
          assert Match(a, s[..k' + 1]);
        }
    }
  }

  lemma {:induction false} ConcatJoin(a: seq<Atom>, b: seq<Atom>, s: string, k: nat)
    requires k <= |s| && Match(a, s[..k]) && Match(b, s[k..])
    ensures Match(a + b, s)
    decreases |a|, k
  {
    if |a| == 0 {
      assert a + b == b;
      assert s[k..] == s;
    } else {
      assert (a + b)[0] == a[0];
      assert (a + b)[1..] == a[1..] + b;
      match a[0]
      case Lit(c) =>
        assert s[..k][1..] == s[1..][..k - 1];
        assert s[k..] == s[1..][k - 1..];
        ConcatJoin(a[1..], b, s[1..], k - 1);
      case Class(e) =>
        assert s[..k][1..] == s[1..][..k - 1];
        assert s[k..] == s[1..][k - 1..];
        ConcatJoin(a[1..], b, s[1..], k - 1);
      case Rep(e) =>
        if Match(a[1..], s[..k]) {
          ConcatJoin(a[1..], b, s, k);
        } else {
          assert s[..k][1..] == s[1..][..k - 1];
          assert s[k..] == s[1..][k - 1..];
          ConcatJoin(a, b, s[1..], k - 1);
        }
    }
  }

  /** Matching a concatenation means splitting the subject between the parts. */
  lemma MatchConcat(a: seq<Atom>, b: seq<Atom>, s: string)
    ensures Match(a + b, s) <==> exists k :: 0 <= k <= |s| && Match(a, s[..k]) && Match(b, s[k..])
  {
    if Match(a + b, s) {
      ConcatSplit(a, b, s);
    }
    if exists k :: 0 <= k <= |s| && Match(a, s[..k]) && Match(b, s[k..]) {
      var k :| 0 <= k <= |s| && Match(a, s[..k]) && Match(b, s[k..]);
      ConcatJoin(a, b, s, k);
    }
  }

  // ---------------------------------------------------------------------
  // The meaning of each construct in isolation.
  // ---------------------------------------------------------------------

  /** A run matches exactly the strings that avoid its excluded set. */
  lemma {:induction false} RepMeaning(e: set<char>, s: string)
    ensures Match([Rep(e)], s) <==> forall i :: 0 <= i < |s| ==> s[i] !in e
    decreases |s|
  {
    assert [Rep(e)][1..] == [];
    if |s| > 0 {
      RepMeaning(e, s[1..]);
      assert forall i :: 1 <= i < |s| ==> s[1..][i - 1] == s[i];
    }
  }

  /** One character followed by a run (`[^/]+`): never the empty string,
      otherwise exactly the strings avoiding the set. */
  lemma PlusMeaning(e: set<char>, s: string)
    ensures Match([Class(e), Rep(e)], s) <==> |s| >= 1 && forall i :: 0 <= i < |s| ==> s[i] !in e
  {
    assert [Class(e), Rep(e)][1..] == [Rep(e)];
    if |s| > 0 {
      RepMeaning(e, s[1..]);
      assert forall i :: 1 <= i < |s| ==> s[1..][i - 1] == s[i];
    }
  }

  /** A literal pattern matches exactly the strings equal to it ignoring case. */
  lemma {:induction false} LiteralMeaning(t: string, s: string)
    ensures Match(Literal(t), s) <==> EqualsIgnoreCase(s, t)
  {
    if |t| == 0 {
    } else if |s| == 0 {
    } else {
      LiteralMeaning(t[1..], s[1..]);
      assert Literal(t)[1..] == Literal(t[1..]);
      assert LowerAll(s) == [Lower(s[0])] + LowerAll(s[1..]);
      assert LowerAll(t) == [Lower(t[0])] + LowerAll(t[1..]);
      if EqualsIgnoreCase(s, t) {
        assert LowerAll(s)[1..] == LowerAll(t)[1..];
        assert LowerAll(s)[0] == LowerAll(t)[0];
      }
    }
  }

  /** An unrestricted single character matches exactly the one-character strings. */
  lemma AnyOneMeaning(s: string)
    ensures Match([Class({})], s) <==> |s| == 1
  {
    assert [Class({})][1..] == [];
  }

  /** A pattern that starts with a literal matches when the subject starts
      with that literal, ignoring case, and the rest matches the remainder. */
  lemma LiteralPrefix(u: string, p: seq<Atom>, s: string)
    ensures Match(Literal(u) + p, s) <==> |u| <= |s| && EqualsIgnoreCase(s[..|u|], u) && Match(p, s[|u|..])
  {
    if Match(Literal(u) + p, s) {
      ConcatSplit(Literal(u), p, s);
      var k :| 0 <= k <= |s| && Match(Literal(u), s[..k]) && Match(p, s[k..]);
      LiteralMeaning(u, s[..k]);
      assert |LowerAll(s[..k])| == |LowerAll(u)|;
    }
    if |u| <= |s| && EqualsIgnoreCase(s[..|u|], u) && Match(p, s[|u|..]) {
      LiteralMeaning(u, s[..|u|]);
      ConcatJoin(Literal(u), p, s, |u|);
    }
  }

  /** A pattern that ends with a literal matches when the subject ends with
      that literal, ignoring case, and the rest matches what precedes it. */
  lemma LiteralSuffix(p: seq<Atom>, v: string, s: string)
    ensures Match(p + Literal(v), s) <==> |v| <= |s| && EqualsIgnoreCase(s[|s| - |v|..], v) && Match(p, s[..|s| - |v|])
  {
    if Match(p + Literal(v), s) {
      LiteralSuffixSplit(p, v, s);
    }
    if |v| <= |s| && EqualsIgnoreCase(s[|s| - |v|..], v) && Match(p, s[..|s| - |v|]) {
      LiteralSuffixJoin(p, v, s);
    }
  }

  lemma LiteralSuffixJoin(p: seq<Atom>, v: string, s: string)
    requires |v| <= |s| && EqualsIgnoreCase(s[|s| - |v|..], v) && Match(p, s[..|s| - |v|])
    ensures Match(p + Literal(v), s)
  {
    LiteralMeaning(v, s[|s| - |v|..]);
    ConcatJoin(p, Literal(v), s, |s| - |v|);
  }

  lemma LiteralSuffixSplit(p: seq<Atom>, v: string, s: string)
    requires Match(p + Literal(v), s)
    ensures |v| <= |s| && EqualsIgnoreCase(s[|s| - |v|..], v) && Match(p, s[..|s| - |v|])
  {
    var k := SplitPoint(p, Literal(v), s);
    LiteralMeaning(v, s[k..]);
    SameLengthIgnoringCase(s[k..], v);
  }

  /** A point at which a match of a concatenation splits. */
  lemma SplitPoint(a: seq<Atom>, b: seq<Atom>, s: string) returns (k: nat)
    requires Match(a + b, s)
    ensures k <= |s| && Match(a, s[..k]) && Match(b, s[k..])
  {
    ConcatSplit(a, b, s);
    k :| 0 <= k <= |s| && Match(a, s[..k]) && Match(b, s[k..]);
  }

  lemma SameLengthIgnoringCase(a: string, b: string)
    requires EqualsIgnoreCase(a, b)
    ensures |a| == |b|
  {
    assert |LowerAll(a)| == |LowerAll(b)|;
  }

  /** `s` starts with `u` and ends with `v`, ignoring case, and the two do
      not overlap. */
  predicate StartsAndEnds(s: string, u: string, v: string) {
    |u| + |v| <= |s| && EqualsIgnoreCase(s[..|u|], u) && EqualsIgnoreCase(s[|s| - |v|..], v)
  }

  /** An unrestricted run between two literals matches exactly the strings
      that start with the first and end with the second. */
  lemma RunBetweenLiterals(u: string, v: string, s: string)
    ensures Match(Literal(u) + [Rep({})] + Literal(v), s) <==> StartsAndEnds(s, u, v)
  {
    LiteralSuffix(Literal(u) + [Rep({})], v, s);
    if |v| <= |s| {
      var front := s[..|s| - |v|];
      LiteralPrefix(u, [Rep({})], front);
      if |u| <= |front| {
        RepMeaning({}, front[|u|..]);
        assert front[..|u|] == s[..|u|];
      }
    }
  }

  /** `s` is `u`, then one character, then `v`, ignoring case. */
  predicate AroundOne(s: string, u: string, v: string) {
    |s| == |u| + 1 + |v| && EqualsIgnoreCase(s[..|u|], u) && EqualsIgnoreCase(s[|s| - |v|..], v)
  }

  /** One unrestricted character between two literals matches exactly the
      strings made of the first, any one character and the second. */
  lemma OneBetweenLiterals(u: string, v: string, s: string)
    ensures Match(Literal(u) + [Class({})] + Literal(v), s) <==> AroundOne(s, u, v)
  {
    LiteralSuffix(Literal(u) + [Class({})], v, s);
    if |v| <= |s| {
      var head := s[..|s| - |v|];
      OneAfterLiteral(u, head);
      if |head| == |u| + 1 {
        assert head[..|u|] == s[..|u|];
      }
    }
  }

  /** A literal followed by one unrestricted character. */
  lemma OneAfterLiteral(u: string, s: string)
    ensures Match(Literal(u) + [Class({})], s) <==> |s| == |u| + 1 && EqualsIgnoreCase(s[..|u|], u)
  {
    LiteralPrefix(u, [Class({})], s);
    if |u| <= |s| {
      AnyOneMeaning(s[|u|..]);
    }
  }

  /** Matching ignores the letter case of the subject. */
  lemma {:induction false} MatchIgnoresCase(p: seq<Atom>, s: string)
    requires Caseless(p)
    ensures Match(p, s) == Match(p, LowerAll(s))
    decreases |p|, |s|
  {
    var t := LowerAll(s);
    if |p| > 0 {
      assert Caseless(p[1..]) by {
        forall i, c | 0 <= i < |p[1..]| && !p[1..][i].Lit? && c in p[1..][i].except
          ensures Lower(c) == c && !('a' <= c <= 'z')
        {
          assert p[1..][i] == p[i + 1];
        }
      }
      if |s| > 0 {
        assert t[1..] == LowerAll(s[1..]);
        assert t[0] == Lower(s[0]);
        assert Lower(Lower(s[0])) == Lower(s[0]);
        match p[0]
        case Lit(c) =>
          MatchIgnoresCase(p[1..], s[1..]);
        case Class(e) =>
          MatchIgnoresCase(p[1..], s[1..]);
          assert s[0] in e <==> t[0] in e;
        case Rep(e) =>
          MatchIgnoresCase(p[1..], s);
          MatchIgnoresCase(p, s[1..]);
          assert s[0] in e <==> t[0] in e;
      } else {
        assert t == s;
      }
    }
  }

  /** An unanchored match is an anchored match of the pattern padded with
      unrestricted runs on both sides. */
  lemma Unanchored(p: seq<Atom>, s: string)
    ensures MatchesSomewhere(p, s) <==> Match([Rep({})] + p + [Rep({})], s)
  {
    var any := Rep({});
    if MatchesSomewhere(p, s) {
      var i, j :| 0 <= i <= j <= |s| && Match(p, s[i..j]);
      RepMeaning({}, s[..i]);
      RepMeaning({}, s[j..]);
      assert s[..j][..i] == s[..i] && s[..j][i..] == s[i..j];
      ConcatJoin([any], p, s[..j], i);
      ConcatJoin([any] + p, [any], s, j);
    }
    if Match([any] + p + [any], s) {
      ConcatSplit([any] + p, [any], s);
      var j :| 0 <= j <= |s| && Match([any] + p, s[..j]) && Match([any], s[j..]);
      ConcatSplit([any], p, s[..j]);
      var i :| 0 <= i <= j && Match([any], s[..j][..i]) && Match(p, s[..j][i..]);
      assert s[..j][i..] == s[i..j];
    }
  }
}
