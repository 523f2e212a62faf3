/**
 The regular expressions the matcher builds (src/index.ts:50 and :56): the
 pattern is split on `*`, every piece has the characters `|\{}()[]^$+?.`
 escaped with a backslash, and the pieces are joined with `.*`. Only that
 fragment of the JavaScript regular-expression language is ever produced,
 so it is modelled as a token list — literal characters and `.*` runs — with
 a parser for the source text, a backtracking matcher with the `i` flag, and
 an independent "pieces occur in order" reading of the same test.
 */
module Regex {
  import opened Text

  datatype Token = Lit(c: char) | AnyRun

  /** What the JavaScript `RegExp` constructor reads from a source text, when
      that text lies in the literal-and-`.*` fragment. */
  datatype ParseResult = Regex(tokens: seq<Token>) | NotInFragment

  /** The characters the matcher puts a backslash in front of: `|`, `\`,
      braces, parentheses, brackets, `^`, `$`, `+`, `?` and `.`. */
  predicate IsEscaped(c: char)
  {
    || c == '|' || c == '\\' || c == '{' || c == '}' || c == '(' || c == ')'
    || c == '[' || c == ']' || c == '^' || c == '$' || c == '+' || c == '?' || c == '.'
  }

  /** Characters with a meaning of their own in a regular expression. */
  predicate IsMeta(c: char)
  {
    IsEscaped(c) || c == '*'
  }

  /** Escaping a piece: every `IsEscaped` character gets a backslash in front
      of it, every other character is kept (src/index.ts:50). */
  function Escape(s: string): (r: string)
    ensures |s| <= |r| <= 2 * |s|
  {
    if s == [] then []
    else (if IsEscaped(s[0]) then ['\\', s[0]] else [s[0]]) + Escape(s[1..])
  }

  /** The source text of a list of pieces: each piece escaped, with `.*`
      between neighbours. */
  function SourceOf(pieces: seq<string>): string
    requires |pieces| >= 1
  {
    if |pieces| == 1 then Escape(pieces[0])
    else Escape(pieces[0]) + ".*" + SourceOf(pieces[1..])
  }

  /** The regular-expression source text built from a pattern. */
  function RegexSource(pattern: string): string
  {
    SourceOf(Split(pattern, '*'))
  }

  function Lits(w: string): (r: seq<Token>)
    ensures |r| == |w|
    ensures forall i :: 0 <= i < |w| ==> r[i] == Lit(w[i])
  {
    if w == [] then [] else [Lit(w[0])] + Lits(w[1..])
  }

  /** The token list that a list of literal pieces joined by `.*` denotes. */
  function TokensOf(pieces: seq<string>): seq<Token>
    requires |pieces| >= 1
  {
    if |pieces| == 1 then Lits(pieces[0])
    else Lits(pieces[0]) + [AnyRun] + TokensOf(pieces[1..])
  }

  function Prepend(ts: seq<Token>, p: ParseResult): ParseResult
  {
    match p
    case Regex(rest) => Regex(ts + rest)
    case NotInFragment => NotInFragment
  }

  /** Reads a regular-expression source text: `\` followed by a meta character
      is that character literally, `.*` is a run, any other meta character is
      outside the fragment, and every remaining character stands for itself. */
  function Parse(src: string): ParseResult
    decreases |src|
  {
    if src == [] then Regex([])
    else if src[0] == '\\' then
      if |src| >= 2 && IsMeta(src[1]) then Prepend([Lit(src[1])], Parse(src[2..])) else NotInFragment
    else if src[0] == '.' && |src| >= 2 && src[1] == '*' then
      Prepend([AnyRun], Parse(src[2..]))
    else if IsMeta(src[0]) then NotInFragment
    else Prepend([Lit(src[0])], Parse(src[1..]))
  }

  /** The compiled form of a pattern: its `*`-separated pieces as literals,
      joined by runs. The contract says that this is exactly what the source
      text built at src/index.ts:50/56 denotes, so the `RegExp` constructor
      never meets a character outside the fragment and never throws. */
  function Compile(pattern: string): (r: seq<Token>)
    ensures Parse(RegexSource(pattern)) == Regex(r)
  {
    var pieces := Split(pattern, '*');
    ParseSource(pieces);
    TokensOf(pieces)
  }

  lemma PrependPrepend(a: seq<Token>, b: seq<Token>, p: ParseResult)
    ensures Prepend(a, Prepend(b, p)) == Prepend(a + b, p)
  {
    if p.Regex? {
      assert a + (b + p.tokens) == (a + b) + p.tokens;
    }
  }

  lemma ParsePlain(c: char, t: string)
    requires !IsMeta(c) && c != '\\'
    ensures Parse([c] + t) == Prepend([Lit(c)], Parse(t))
  {
    assert ([c] + t)[1..] == t;
  }

  lemma ParseEscaped(c: char, t: string)
    requires IsMeta(c)
    ensures Parse(['\\', c] + t) == Prepend([Lit(c)], Parse(t))
  {
    assert (['\\', c] + t)[2..] == t;
  }

  lemma ParseRun(t: string)
    ensures Parse(".*" + t) == Prepend([AnyRun], Parse(t))
  {
    var src := ".*" + t;
    assert src[0] == '.' && src[1] == '*';
    assert src[2..] == t;
  }

  /** The escaped form of a star-free word reads back one character at a time. */
  lemma ParseEscapeHead(w: string, rest: string)
    requires w != [] && w[0] != '*'
    ensures Parse(Escape(w) + rest) == Prepend([Lit(w[0])], Parse(Escape(w[1..]) + rest))
  {
    var tail := Escape(w[1..]) + rest;
    if IsEscaped(w[0]) {
      assert Escape(w) + rest == ['\\', w[0]] + tail;
      ParseEscaped(w[0], tail);
    } else {
      assert Escape(w) + rest == [w[0]] + tail;
      ParsePlain(w[0], tail);
    }
  }

  lemma {:induction false} ParseEscape(w: string, rest: string)
    requires '*' !in w
    ensures Parse(Escape(w) + rest) == Prepend(Lits(w), Parse(rest))
  {
    if w == [] {
      assert Escape(w) + rest == rest;
      if Parse(rest).Regex? {
        assert Lits(w) + Parse(rest).tokens == Parse(rest).tokens;
      }
    } else {
      ParseEscapeHead(w, rest);
      assert '*' !in w[1..];
      ParseEscape(w[1..], rest);
      PrependPrepend([Lit(w[0])], Lits(w[1..]), Parse(rest));
      assert [Lit(w[0])] + Lits(w[1..]) == Lits(w);
    }
  }

  /** The source of two or more pieces reads back as the first piece's
      literals and a run, then the source of the rest. */
  lemma SourceHead(pieces: seq<string>)
    requires |pieces| >= 2 && '*' !in pieces[0]
    ensures Parse(SourceOf(pieces)) == Prepend(Lits(pieces[0]) + [AnyRun], Parse(SourceOf(pieces[1..])))
  {
    var tail := SourceOf(pieces[1..]);
    assert SourceOf(pieces) == Escape(pieces[0]) + (".*" + tail);
    ParseEscape(pieces[0], ".*" + tail);
    ParseRun(tail);
    PrependPrepend(Lits(pieces[0]), [AnyRun], Parse(tail));
  }

  lemma {:induction false} ParseSource(pieces: seq<string>)
    requires |pieces| >= 1
    requires forall k :: 0 <= k < |pieces| ==> '*' !in pieces[k]
    ensures Parse(SourceOf(pieces)) == Regex(TokensOf(pieces))
  {
    if |pieces| == 1 {
      ParseEscape(pieces[0], []);
      assert Escape(pieces[0]) + [] == Escape(pieces[0]);
      assert Lits(pieces[0]) + [] == Lits(pieces[0]);
    } else {
      SourceHead(pieces);
      ParseSource(pieces[1..]);
      assert Lits(pieces[0]) + [AnyRun] + TokensOf(pieces[1..]) == TokensOf(pieces);
    }
  }

  /** The regular expression matches a prefix of `s` (the `i` flag compares
      characters case-insensitively; `.` never matches a line terminator). */
  function MatchHere(ts: seq<Token>, s: string): bool
    decreases |s|, |ts|
  {
    if ts == [] then true
    else match ts[0]
      case Lit(c) => s != [] && LowerChar(s[0]) == LowerChar(c) && MatchHere(ts[1..], s[1..])
      case AnyRun =>
        MatchHere(ts[1..], s) || (s != [] && !IsLineTerminator(s[0]) && MatchHere(ts, s[1..]))
  }

  /** `RegExp.prototype.test` with no anchors: a match may start anywhere. */
  function Test(ts: seq<Token>, s: string): (r: bool)
    ensures r <==> exists i :: 0 <= i <= |s| && MatchHere(ts, s[i..])
  {
    if MatchHere(ts, s) then
      assert s[0..] == s;
      true
    else if s == [] then
      false
    else
      var r := Test(ts, s[1..]);
      assert forall i :: 1 <= i <= |s| ==> s[i..] == s[1..][i - 1..];
      assert r ==> exists i :: 1 <= i <= |s| && MatchHere(ts, s[i..]) by {
        if r {
          var j :| 0 <= j <= |s[1..]| && MatchHere(ts, s[1..][j..]);
          assert s[j + 1..] == s[1..][j..];
        }
      }
      r
  }

  /** `w` occurs in `s` at index `i`, comparing letters without case. */
  predicate OccursAtIgnoringCase(s: string, w: string, i: int)
  {
    0 <= i && i + |w| <= |s| && EqualsIgnoringCase(s[i..i + |w|], w)
  }

  /** The reference reading of a compiled pattern: its pieces occur in `s`
      in order, without overlapping, each anywhere after the previous one. */
  ghost predicate InOrder(pieces: seq<string>, s: string)
    decreases |pieces|
  {
    pieces == [] ||
    exists i :: OccursAtIgnoringCase(s, pieces[0], i) && InOrder(pieces[1..], s[i + |pieces[0]|..])
  }

  lemma {:induction false} MatchLits(w: string, rest: seq<Token>, s: string)
    ensures MatchHere(Lits(w) + rest, s) <==>
      (|w| <= |s| && EqualsIgnoringCase(s[..|w|], w) && MatchHere(rest, s[|w|..]))
  {
    if w == [] {
      assert Lits(w) + rest == rest;
      assert s[0..] == s;
    } else {
      assert (Lits(w) + rest)[0] == Lit(w[0]);
      assert (Lits(w) + rest)[1..] == Lits(w[1..]) + rest;
      if s != [] {
        MatchLits(w[1..], rest, s[1..]);
        if |w| <= |s| {
          assert s[1..][|w| - 1..] == s[|w|..];
          assert EqualsIgnoringCase(s[..|w|], w) <==>
            (LowerChar(s[0]) == LowerChar(w[0]) && EqualsIgnoringCase(s[1..][..|w| - 1], w[1..]));
        }
      }
    }
  }

  lemma {:induction false} MatchRun(rest: seq<Token>, s: string)
    requires NoLineTerminator(s)
    ensures MatchHere([AnyRun] + rest, s) <==> Test(rest, s)
  {
    assert ([AnyRun] + rest)[1..] == rest;
    if s != [] {
      MatchRun(rest, s[1..]);
      assert MatchHere([AnyRun] + rest, s) ==
        (MatchHere(rest, s) || MatchHere([AnyRun] + rest, s[1..]));
    }
  }

  /** The compiled pieces match at the start of `t` when the first piece is a
      prefix of `t` and the remaining pieces occur in order after it. */
  lemma {:induction false} MatchPiecesHere(pieces: seq<string>, t: string)
    requires |pieces| >= 1
    requires NoLineTerminator(t)
    ensures MatchHere(TokensOf(pieces), t) <==>
      (|pieces[0]| <= |t| && EqualsIgnoringCase(t[..|pieces[0]|], pieces[0])
       && InOrder(pieces[1..], t[|pieces[0]|..]))
    decreases |pieces|, 0
  {
    var w := pieces[0];
    var rest: seq<Token> := if |pieces| == 1 then [] else [AnyRun] + TokensOf(pieces[1..]);
    assert TokensOf(pieces) == Lits(w) + rest;
    MatchLits(w, rest, t);
    if |w| <= |t| && |pieces| > 1 {
      MatchRun(TokensOf(pieces[1..]), t[|w|..]);
      TestIffInOrder(pieces[1..], t[|w|..]);
    }
  }

  /** The compiled pieces match at index `i` of `s` exactly when the first
      piece occurs there and the others occur in order after it. */
  lemma {:induction false} MatchAt(pieces: seq<string>, s: string, i: int)
    requires |pieces| >= 1 && 0 <= i <= |s|
    requires NoLineTerminator(s)
    ensures MatchHere(TokensOf(pieces), s[i..]) <==>
      (OccursAtIgnoringCase(s, pieces[0], i) && InOrder(pieces[1..], s[i + |pieces[0]|..]))
    decreases |pieces|, 1
  {
    var w := pieces[0];
    MatchPiecesHere(pieces, s[i..]);
    if i + |w| <= |s| {
      assert s[i..][..|w|] == s[i..i + |w|];
      assert s[i..][|w|..] == s[i + |w|..];
    }
  }

  /** On a line without line terminators the compiled regular expression
      matches exactly when the pattern's pieces occur in order. */
  lemma {:induction false} TestIffInOrder(pieces: seq<string>, s: string)
    requires |pieces| >= 1
    requires NoLineTerminator(s)
    ensures Test(TokensOf(pieces), s) <==> InOrder(pieces, s)
    decreases |pieces|, 2
  {
    if InOrder(pieces, s) {
      var i :| OccursAtIgnoringCase(s, pieces[0], i) && InOrder(pieces[1..], s[i + |pieces[0]|..]);
      MatchAt(pieces, s, i);
    }
    if Test(TokensOf(pieces), s) {
      var i :| 0 <= i <= |s| && MatchHere(TokensOf(pieces), s[i..]);
      MatchAt(pieces, s, i);
    }
  }

  /** The backtracking matcher and the reference reading agree on a pattern. */
  lemma CompiledPatternIffInOrder(pattern: string, s: string)
    requires NoLineTerminator(s)
    ensures Test(Compile(pattern), s) <==> InOrder(Split(pattern, '*'), s)
  {
    TestIffInOrder(Split(pattern, '*'), s);
  }
}
