/**
 The pattern matcher `matchesAnyPattern` (src/index.ts:39-63).

 A pattern is matched against a path after the path has had its backslashes
 turned into slashes and has been lower-cased. A pattern with a `/` in it is
 a glob over the whole normalised path; a pattern without one matches when
 its glob matches the path's basename or when the lower-cased pattern occurs
 literally in the normalised path. The empty pattern never matches, and a
 list of patterns matches when one of its members does.
 */
module Patterns {
  import opened Text
  import opened Regex

  /** One iteration of the `patterns.some(...)` callback (src/index.ts:44-61). */
  function PatternMatches(pattern: string, path: string): (r: bool)
    ensures pattern == [] ==> !r
    ensures NoLineTerminator(path) ==>
      (r <==>
        && pattern != []
        && if '/' in pattern then InOrder(Split(pattern, '*'), NormalizePath(path))
           else (|| InOrder(Split(pattern, '*'), Basename(NormalizePath(path)))
                 || Contains(NormalizePath(path), Lower(pattern))))
  {
    if pattern == [] then false
    else
      var np := NormalizePath(path);
      var lp := Lower(pattern);
      SlashInLower(pattern);
      NormalizeKeepsLines(path);
      BasenameKeepsLines(np);
      GlobReading(pattern, np);
      GlobReading(pattern, Basename(np));
      if '/' in lp then Test(Compile(pattern), np)
      else Test(Compile(pattern), Basename(np)) || Includes(np, lp)
  }

  /** `matchesAnyPattern` (src/index.ts:39-63): some pattern of the list matches. */
  function MatchesAny(path: string, patterns: seq<string>): (r: bool)
    ensures r <==> exists k :: 0 <= k < |patterns| && PatternMatches(patterns[k], path)
  {
    if |patterns| == 0 then false
    else PatternMatches(patterns[0], path) || MatchesAny(path, patterns[1..])
  }

  lemma SlashInLower(s: string)
    ensures '/' in Lower(s) <==> '/' in s
  {
    if '/' in Lower(s) {
      var i :| 0 <= i < |s| && Lower(s)[i] == '/';
      assert s[i] == '/';
    }
    if '/' in s {
      var i :| 0 <= i < |s| && s[i] == '/';
      assert Lower(s)[i] == '/';
    }
  }

  lemma NormalizeKeepsLines(path: string)
    ensures NoLineTerminator(path) ==> NoLineTerminator(NormalizePath(path))
  {
  }

  lemma BasenameKeepsLines(s: string)
    ensures NoLineTerminator(s) ==> NoLineTerminator(Basename(s))
  {
    var i, j :| 0 <= i <= j <= |s| && Basename(s) == s[i..j];
  }

  lemma GlobReading(pattern: string, s: string)
    ensures NoLineTerminator(s) ==> (Test(Compile(pattern), s) <==> InOrder(Split(pattern, '*'), s))
  {
    if NoLineTerminator(s) {
      CompiledPatternIffInOrder(pattern, s);
    }
  }

  /** A list of patterns without members never matches (src/index.ts:40-42). */
  lemma EmptyListNeverMatches(path: string)
    ensures !MatchesAny(path, [])
  {
  }

  /** Which list a pattern sits in, and where, does not matter: only the set of
      members does. */
  lemma {:induction false} MatchesAnyOrderIrrelevant(path: string, a: seq<string>, b: seq<string>)
    requires forall q :: q in a <==> q in b
    ensures MatchesAny(path, a) == MatchesAny(path, b)
  {
    if MatchesAny(path, a) {
      var k :| 0 <= k < |a| && PatternMatches(a[k], path);
      assert a[k] in b;
      var m :| 0 <= m < |b| && b[m] == a[k];
    }
    if MatchesAny(path, b) {
      var k :| 0 <= k < |b| && PatternMatches(b[k], path);
      assert b[k] in a;
      var m :| 0 <= m < |a| && a[m] == b[k];
    }
  }

  /** Concatenating two lists unions what they match, so appending patterns
      never turns a match into a non-match. */
  lemma {:induction false} MatchesAnyConcat(path: string, a: seq<string>, b: seq<string>)
    ensures MatchesAny(path, a + b) <==> MatchesAny(path, a) || MatchesAny(path, b)
  {
    if MatchesAny(path, a) {
      var k :| 0 <= k < |a| && PatternMatches(a[k], path);
      assert (a + b)[k] == a[k];
    }
    if MatchesAny(path, b) {
      var k :| 0 <= k < |b| && PatternMatches(b[k], path);
      assert (a + b)[|a| + k] == b[k];
    }
    if MatchesAny(path, a + b) {
      var k :| 0 <= k < |a + b| && PatternMatches((a + b)[k], path);
      if k < |a| {
        assert (a + b)[k] == a[k];
      } else {
        assert (a + b)[k] == b[k - |a|];
      }
    }
  }

  /** Changing the case of letters in the path or writing `\` for `/` (or the
      reverse) never changes whether a pattern matches it. */
  lemma PathSpellingIrrelevant(pattern: string, p1: string, p2: string)
    requires EqualsIgnoringCase(SlashSep(p1), SlashSep(p2))
    ensures PatternMatches(pattern, p1) == PatternMatches(pattern, p2)
  {
    assert NormalizePath(p1) == NormalizePath(p2);
  }

  /** Two token lists that differ only in the case of their literals. */
  predicate TokensAgreeIgnoringCase(t1: seq<Token>, t2: seq<Token>)
  {
    |t1| == |t2| &&
    forall i :: 0 <= i < |t1| ==>
      (t1[i].AnyRun? && t2[i].AnyRun?) ||
      (t1[i].Lit? && t2[i].Lit? && LowerChar(t1[i].c) == LowerChar(t2[i].c))
  }

  lemma {:induction false} MatchHereIgnoresCase(t1: seq<Token>, t2: seq<Token>, s: string)
    requires TokensAgreeIgnoringCase(t1, t2)
    ensures MatchHere(t1, s) == MatchHere(t2, s)
    decreases |s|, |t1|
  {
    if t1 != [] {
      assert TokensAgreeIgnoringCase(t1[1..], t2[1..]);
      if t1[0].Lit? {
        if s != [] {
          MatchHereIgnoresCase(t1[1..], t2[1..], s[1..]);
        }
      } else {
        MatchHereIgnoresCase(t1[1..], t2[1..], s);
        if s != [] {
          MatchHereIgnoresCase(t1, t2, s[1..]);
        }
      }
    }
  }

  /** The token a pattern character compiles to. */
  function CharToken(c: char): Token
  {
    if c == '*' then AnyRun else Lit(c)
  }

  lemma {:induction false} TokensOfJoin(pieces: seq<string>)
    requires |pieces| >= 1
    requires forall k :: 0 <= k < |pieces| ==> '*' !in pieces[k]
    ensures |TokensOf(pieces)| == |Join(pieces, '*')|
    ensures forall i :: 0 <= i < |Join(pieces, '*')| ==>
      TokensOf(pieces)[i] == CharToken(Join(pieces, '*')[i])
  {
    var w := pieces[0];
    assert forall i :: 0 <= i < |w| ==> w[i] != '*';
    if |pieces| > 1 {
      TokensOfJoin(pieces[1..]);
      var t := TokensOf(pieces[1..]);
      var j := Join(pieces[1..], '*');
      assert TokensOf(pieces) == Lits(w) + [AnyRun] + t;
      assert Join(pieces, '*') == w + ['*'] + j;
      forall i | 0 <= i < |Join(pieces, '*')|
        ensures TokensOf(pieces)[i] == CharToken(Join(pieces, '*')[i])
      {
        if i > |w| {
          assert TokensOf(pieces)[i] == t[i - |w| - 1];
          assert Join(pieces, '*')[i] == j[i - |w| - 1];
        }
      }
    }
  }

  /** The compiled pattern reads the pattern character by character: `*` is
      a run and every other character a literal. */
  lemma CompileIsCharwise(pattern: string)
    ensures |Compile(pattern)| == |pattern|
    ensures forall i :: 0 <= i < |pattern| ==> Compile(pattern)[i] == CharToken(pattern[i])
  {
    var pieces := Split(pattern, '*');
    TokensOfJoin(pieces);
  }

  /** The letter case of a pattern never matters either. */
  lemma PatternCaseIrrelevant(q1: string, q2: string, path: string)
    requires EqualsIgnoringCase(q1, q2)
    ensures PatternMatches(q1, path) == PatternMatches(q2, path)
  {
    CompileIsCharwise(q1);
    CompileIsCharwise(q2);
    assert TokensAgreeIgnoringCase(Compile(q1), Compile(q2));
    var np := NormalizePath(path);
    forall t: string
      ensures Test(Compile(q1), t) == Test(Compile(q2), t)
    {
      forall i | 0 <= i <= |t|
        ensures MatchHere(Compile(q1), t[i..]) == MatchHere(Compile(q2), t[i..])
      {
        MatchHereIgnoresCase(Compile(q1), Compile(q2), t[i..]);
      }
    }
    assert Lower(q1) == Lower(q2);
    SlashInLower(q1);
    SlashInLower(q2);
  }

  lemma LowerCharIdempotent(c: char)
    ensures LowerChar(LowerChar(c)) == LowerChar(c)
  {
  }

  /** Every character of a normalised path is its own lower case. */
  lemma NormalizedIsLower(path: string)
    ensures forall x :: 0 <= x < |NormalizePath(path)| ==>
      LowerChar(NormalizePath(path)[x]) == NormalizePath(path)[x]
  {
    forall x | 0 <= x < |NormalizePath(path)|
      ensures LowerChar(NormalizePath(path)[x]) == NormalizePath(path)[x]
    {
      LowerCharIdempotent(SlashSep(path)[x]);
    }
  }

  /** A literal of the expression can only be matched by a character of the
      input that equals it up to case. */
  lemma {:induction false} LiteralNeedsCharacter(ts: seq<Token>, s: string, j: int)
    requires MatchHere(ts, s)
    requires 0 <= j < |ts| && ts[j].Lit?
    ensures exists x :: 0 <= x < |s| && LowerChar(s[x]) == LowerChar(ts[j].c)
    decreases |s|, |ts|
  {
    match ts[0]
    case Lit(c) =>
      if j > 0 {
        LiteralNeedsCharacter(ts[1..], s[1..], j - 1);
        var x :| 0 <= x < |s[1..]| && LowerChar(s[1..][x]) == LowerChar(ts[1..][j - 1].c);
        assert s[x + 1] == s[1..][x];
      }
    case AnyRun =>
      if MatchHere(ts[1..], s) {
        LiteralNeedsCharacter(ts[1..], s, j - 1);
      } else {
        LiteralNeedsCharacter(ts, s[1..], j);
        var x :| 0 <= x < |s[1..]| && LowerChar(s[1..][x]) == LowerChar(ts[j].c);
        assert s[x + 1] == s[1..][x];
      }
  }

  lemma TestNeedsCharacter(ts: seq<Token>, t: string, j: int)
    requires Test(ts, t)
    requires 0 <= j < |ts| && ts[j].Lit?
    ensures exists x :: 0 <= x < |t| && LowerChar(t[x]) == LowerChar(ts[j].c)
  {
    var i :| 0 <= i <= |t| && MatchHere(ts, t[i..]);
    LiteralNeedsCharacter(ts, t[i..], j);
    var x :| 0 <= x < |t[i..]| && LowerChar(t[i..][x]) == LowerChar(ts[j].c);
    assert t[i + x] == t[i..][x];
  }

  lemma RegexMissesForeign(pattern: string, t: string, j: int)
    requires 0 <= j < |pattern| && pattern[j] != '*'
    requires forall x :: 0 <= x < |t| ==> LowerChar(t[x]) != LowerChar(pattern[j])
    ensures !Test(Compile(pattern), t)
  {
    CompileIsCharwise(pattern);
    if Test(Compile(pattern), t) {
      TestNeedsCharacter(Compile(pattern), t, j);
    }
  }

  /** Where the basename of `s` sits inside `s`. */
  lemma BasenameSlice(s: string) returns (i: int, k: int)
    ensures 0 <= i <= k <= |s| && Basename(s) == s[i..k]
  {
    i, k :| 0 <= i <= k <= |s| && Basename(s) == s[i..k];
  }

  lemma IncludesNeedsCharacter(np: string, pattern: string, j: int)
    requires 0 <= j < |pattern|
    requires LowerChar(pattern[j]) !in np
    ensures !Includes(np, Lower(pattern))
  {
  }

  lemma BasenameMissesForeign(pattern: string, t: string, j: int)
    requires 0 <= j < |pattern| && pattern[j] != '*'
    requires forall x :: 0 <= x < |t| ==> LowerChar(t[x]) != LowerChar(pattern[j])
    ensures !Test(Compile(pattern), Basename(t))
  {
    var b := Basename(t);
    var i, k := BasenameSlice(t);
    assert forall x :: 0 <= x < |b| ==> b[x] == t[i + x];
    RegexMissesForeign(pattern, b, j);
  }

  /** A pattern with a non-wildcard character that the normalised path lacks
      cannot match it, whichever branch of the matcher is taken. */
  lemma ForeignCharacterRefutes(pattern: string, path: string, j: int)
    requires 0 <= j < |pattern| && pattern[j] != '*'
    requires LowerChar(pattern[j]) !in NormalizePath(path)
    ensures !PatternMatches(pattern, path)
  {
    var np := NormalizePath(path);
    NormalizedIsLower(path);
    assert forall x :: 0 <= x < |np| ==> LowerChar(np[x]) != LowerChar(pattern[j]);
    RegexMissesForeign(pattern, np, j);
    BasenameMissesForeign(pattern, np, j);
    IncludesNeedsCharacter(np, pattern, j);
  }

  /** Without a `*` the compiled expression is a plain case-insensitive
      substring search. */
  lemma StarFreeTest(pattern: string, t: string)
    requires '*' !in pattern
    ensures Test(Compile(pattern), t) <==> exists i :: OccursAtIgnoringCase(t, pattern, i)
  {
    CompileIsCharwise(pattern);
    assert Compile(pattern) == Lits(pattern);
    assert Compile(pattern) == Lits(pattern) + [];
    forall i | 0 <= i <= |t|
      ensures MatchHere(Compile(pattern), t[i..]) <==> OccursAtIgnoringCase(t, pattern, i)
    {
      MatchLits(pattern, [], t[i..]);
      if i + |pattern| <= |t| {
        assert t[i..][..|pattern|] == t[i..i + |pattern|];
      }
    }
    if exists i :: OccursAtIgnoringCase(t, pattern, i) {
      var i :| OccursAtIgnoringCase(t, pattern, i);
      assert MatchHere(Compile(pattern), t[i..]);
    }
  }

  lemma OccursInLowerPath(path: string, w: string, i: int)
    ensures OccursAtIgnoringCase(NormalizePath(path), w, i) <==> OccursAt(NormalizePath(path), Lower(w), i)
  {
    var np := NormalizePath(path);
    NormalizedIsLower(path);
    if OccursAtIgnoringCase(np, w, i) {
      assert np[i..i + |w|] == Lower(w);
    }
    if OccursAt(np, Lower(w), i) {
      forall k | 0 <= k < |w|
        ensures LowerChar(np[i..i + |w|][k]) == LowerChar(w[k])
      {
        assert np[i..i + |w|][k] == Lower(w)[k];
        LowerCharIdempotent(w[k]);
      }
    }
  }

  /** An occurrence inside a slice is an occurrence in the whole string. */
  lemma SliceOccurrence(t: string, i: int, k: int, w: string, x: int)
    requires 0 <= i <= k <= |t|
    requires OccursAtIgnoringCase(t[i..k], w, x)
    ensures OccursAtIgnoringCase(t, w, i + x)
  {
    var inner := t[i..k][x..x + |w|];
    assert forall m :: 0 <= m < |w| ==> inner[m] == t[i + x + m];
    var outer := t[i + x..i + x + |w|];
    assert forall m :: 0 <= m < |w| ==> outer[m] == t[i + x + m];
    assert inner == outer;
  }

  lemma BasenameOccurrence(pattern: string, t: string)
    requires '*' !in pattern
    requires Test(Compile(pattern), Basename(t))
    ensures exists y :: OccursAtIgnoringCase(t, pattern, y)
  {
    var b := Basename(t);
    StarFreeTest(pattern, b);
    var x :| OccursAtIgnoringCase(b, pattern, x);
    var i, k := BasenameSlice(t);
    SliceOccurrence(t, i, k, pattern, x);
  }

  lemma WholePathOccurrence(pattern: string, path: string)
    requires '*' !in pattern
    ensures Test(Compile(pattern), NormalizePath(path)) <==> Contains(NormalizePath(path), Lower(pattern))
  {
    var np := NormalizePath(path);
    StarFreeTest(pattern, np);
    if Test(Compile(pattern), np) {
      var i :| OccursAtIgnoringCase(np, pattern, i);
      OccursInLowerPath(path, pattern, i);
    }
    if Contains(np, Lower(pattern)) {
      var i :| OccursAt(np, Lower(pattern), i);
      OccursInLowerPath(path, pattern, i);
    }
  }

  /** A pattern without `*` is a substring test on the normalised path,
      whether or not it contains a `/`: a match on the basename is also an
      occurrence in the whole path. */
  lemma StarFreePatternIsSubstring(pattern: string, path: string)
    requires pattern != [] && '*' !in pattern
    ensures PatternMatches(pattern, path) <==> Contains(NormalizePath(path), Lower(pattern))
  {
    WholePathOccurrence(pattern, path);
    if '/' !in Lower(pattern) && Test(Compile(pattern), Basename(NormalizePath(path))) {
      BasenameOccurrence(pattern, NormalizePath(path));
      var y :| OccursAtIgnoringCase(NormalizePath(path), pattern, y);
      OccursInLowerPath(path, pattern, y);
    }
  }
}
