/**
 The selection policy: how the command-line options become the ignore and
 include lists (src/index.ts:18-38) and the per-path decision `shouldProcess`
 (src/index.ts:65-72).
 */
module Selection {
  import opened Text
  import opened Patterns
  import opened Defaults

  /** The parsed command-line options: the raw `--ignore` and `--include`
      strings ("" when the option is absent) and the `--remove-default` flag. */
  datatype Options = Options(ignoreOption: string, includeOption: string, removeDefault: bool)

  /** The lists every decision of a run is made against. */
  datatype Config = Config(ignorePatterns: seq<string>, includePatterns: seq<string>)

  /** Drops the empty strings, the only falsy pieces, keeping the others in
      order. */
  function DropEmpty(ps: seq<string>): (r: seq<string>)
    ensures |r| <= |ps|
    ensures forall k :: 0 <= k < |r| ==> r[k] != []
    ensures forall x :: x in r <==> x in ps && x != []
    ensures (forall k :: 0 <= k < |ps| ==> ps[k] != []) ==> r == ps
  {
    if ps == [] then []
    else if ps[0] == [] then DropEmpty(ps[1..])
    else
      var r := [ps[0]] + DropEmpty(ps[1..]);
      assert ps == [ps[0]] + ps[1..];
      r
  }

  /** Trims every piece. */
  function TrimEach(ps: seq<string>): (r: seq<string>)
    ensures |r| == |ps|
    ensures forall k :: 0 <= k < |ps| ==> r[k] == Trim(ps[k])
  {
    if ps == [] then [] else [Trim(ps[0])] + TrimEach(ps[1..])
  }

  /** A user pattern list: split on ',', drop the empty pieces, then trim each
      piece. Trimming comes last, so a piece made only of spaces survives as the
      empty pattern (src/index.ts:18-28). */
  function UserPatterns(raw: string): (r: seq<string>)
    ensures raw == [] ==> r == []
    ensures forall k :: 0 <= k < |r| ==> ',' !in r[k]
    ensures forall k :: 0 <= k < |r| ==> Trimmed(r[k])
    ensures forall q :: q in Split(raw, ',') && q != [] ==> Trim(q) in r
    ensures forall x :: x in r ==> exists q :: q in Split(raw, ',') && q != [] && x == Trim(q)
  {
    var pieces := Split(raw, ',');
    var kept := DropEmpty(pieces);
    var r := TrimEach(kept);
    forall k | 0 <= k < |r|
      ensures ',' !in r[k] && Trimmed(r[k])
    {
      assert kept[k] in pieces;
      TrimIsInfix(kept[k]);
    }
    TrimmedPieces(pieces);
    r
  }

  /** The trimmed non-empty pieces are exactly the trims of the pieces that
      are not empty. */
  lemma TrimmedPieces(pieces: seq<string>)
    ensures forall q :: q in pieces && q != [] ==> Trim(q) in TrimEach(DropEmpty(pieces))
    ensures forall x :: x in TrimEach(DropEmpty(pieces)) ==> exists q :: q in pieces && q != [] && x == Trim(q)
  {
    forall q | q in pieces && q != []
      ensures Trim(q) in TrimEach(DropEmpty(pieces))
    {
      TrimOfKept(pieces, q);
    }
    forall x | x in TrimEach(DropEmpty(pieces))
      ensures exists q :: q in pieces && q != [] && x == Trim(q)
    {
      var q := KeptOfTrim(pieces, x);
    }
  }

  lemma TrimOfKept(pieces: seq<string>, q: string)
    requires q in pieces && q != []
    ensures Trim(q) in TrimEach(DropEmpty(pieces))
  {
    var kept := DropEmpty(pieces);
    assert q in kept;
    var k :| 0 <= k < |kept| && kept[k] == q;
    assert TrimEach(kept)[k] == Trim(q);
  }

  lemma KeptOfTrim(pieces: seq<string>, x: string) returns (q: string)
    requires x in TrimEach(DropEmpty(pieces))
    ensures q in pieces && q != [] && x == Trim(q)
  {
    var kept := DropEmpty(pieces);
    var r := TrimEach(kept);
    var k :| 0 <= k < |r| && r[k] == x;
    q := kept[k];
    assert q in kept;
  }

  /** A string with no whitespace at either end. */
  predicate Trimmed(s: string)
  {
    s == [] || (!IsJsWhitespace(s[0]) && !IsJsWhitespace(s[|s| - 1]))
  }

  lemma TrimIsInfix(s: string)
    ensures Trimmed(Trim(s))
    ensures forall c :: c in Trim(s) ==> c in s
  {
  }

  /** Trimming a string with no whitespace at its ends changes nothing. */
  lemma TrimTrimmed(s: string)
    requires Trimmed(s)
    ensures Trim(s) == s
  {
  }

  /** Joining comma-free pieces with `,` and reading the result as a user
      pattern list drops the empty pieces and trims the others, keeping their
      order. */
  lemma UserPatternsOfJoin(ps: seq<string>)
    requires |ps| >= 1
    requires forall k :: 0 <= k < |ps| ==> ',' !in ps[k]
    ensures UserPatterns(Join(ps, ',')) == TrimEach(DropEmpty(ps))
  {
    SplitJoin(ps, ',');
  }

  /** `UserPatterns` inverts `join(",")` on lists of non-empty, trimmed,
      comma-free patterns: such a list survives the command line unchanged. */
  lemma UserPatternsJoin(ps: seq<string>)
    requires |ps| >= 1
    requires forall k :: 0 <= k < |ps| ==> ps[k] != [] && ',' !in ps[k] && Trimmed(ps[k])
    ensures UserPatterns(Join(ps, ',')) == ps
  {
    UserPatternsOfJoin(ps);
    assert DropEmpty(ps) == ps;
    TrimEachTrimmed(ps);
  }

  lemma TrimEachTrimmed(ps: seq<string>)
    requires forall k :: 0 <= k < |ps| ==> Trimmed(ps[k])
    ensures TrimEach(ps) == ps
  {
    forall k | 0 <= k < |ps|
      ensures TrimEach(ps)[k] == ps[k]
    {
      TrimTrimmed(ps[k]);
    }
  }

  /** `--ignore "a, b,,c"`: the empty piece is dropped and the space before
      `b` is trimmed. */
  lemma OptionExample()
    ensures UserPatterns("a, b,,c") == ["a", "b", "c"]
  {
    var ps := ["a", " b", "", "c"];
    ExampleJoin(ps);
    ExamplePiecesFree(ps);
    UserPatternsOfJoin(ps);
    ExampleDropEmpty(ps);
    ExampleTrimmed();
    ExampleTrimEach("a", "b", "c");
  }

  lemma ExampleJoin(ps: seq<string>)
    requires ps == ["a", " b", "", "c"]
    ensures Join(ps, ',') == "a, b,,c"
  {
    assert Join(ps[2..], ',') == ",c";
  }

  lemma ExamplePiecesFree(ps: seq<string>)
    requires ps == ["a", " b", "", "c"]
    ensures |ps| >= 1 && forall k :: 0 <= k < |ps| ==> ',' !in ps[k]
  {
  }

  lemma ExampleDropEmpty(ps: seq<string>)
    requires ps == ["a", " b", "", "c"]
    ensures DropEmpty(ps) == ["a", " b", "c"]
  {
    assert ps[1..] == [" b", "", "c"];
    assert ps[1..][1..] == ["", "c"];
    assert ps[1..][1..][1..] == ["c"];
    assert DropEmpty(["c"]) == ["c"];
    assert DropEmpty(["", "c"]) == ["c"];
    assert DropEmpty([" b", "", "c"]) == [" b", "c"];
  }

  lemma ExampleTrimEach(a: string, b: string, c: string)
    requires a != [] && Trimmed(a) && b != [] && Trimmed(b) && c != [] && Trimmed(c)
    ensures TrimEach([a, " " + b, c]) == [a, b, c]
  {
    var ps, qs := [a, " " + b, c], [a, b, c];
    forall k | 0 <= k < 3
      ensures Trim(ps[k]) == qs[k]
    {
      if k == 0 {
        TrimTrimmed(a);
      } else if k == 1 {
        TrimAfterSpace(b);
      } else {
        TrimTrimmed(c);
      }
    }
    TrimEachPointwise(ps, qs);
  }

  /** Trimming each piece is fixed by the trims of the pieces. */
  lemma TrimEachPointwise(ps: seq<string>, qs: seq<string>)
    requires |ps| == |qs| && forall k :: 0 <= k < |ps| ==> Trim(ps[k]) == qs[k]
    ensures TrimEach(ps) == qs
  {
  }

  lemma ExampleTrimmed()
    ensures Trimmed("a") && Trimmed("b") && Trimmed("c") && " " + "b" == " b"
  {
  }

  /** One leading space goes, the rest of a trimmed string stays. */
  lemma TrimAfterSpace(w: string)
    requires w != [] && Trimmed(w)
    ensures Trim(" " + w) == w
  {
    var s := " " + w;
    assert s[|s| - 1] == w[|w| - 1];
    assert TrimEnd(s) == s;
    assert s[1..] == w;
    assert TrimStart(s) == TrimStart(w);
  }

  /** A comma-free piece made only of whitespace becomes the single empty
      pattern, which never matches anything. */
  lemma BlankPieceIsInert(raw: string, path: string)
    requires raw != [] && ',' !in raw
    requires forall k :: 0 <= k < |raw| ==> IsJsWhitespace(raw[k])
    ensures UserPatterns(raw) == [""]
    ensures !MatchesAny(path, UserPatterns(raw))
  {
    SplitNoSeparator(raw, ',');
    assert DropEmpty([raw]) == [raw];
  }

  /** The ignore list: the defaults (unless `--remove-default`), then the
      output file name, then the user's patterns (src/index.ts:30-38). */
  function IgnoreList(addDefaults: bool, user: seq<string>): (r: seq<string>)
    ensures OutputFile in r
    ensures |user| < |r| && r[|r| - |user|..] == user
    ensures r[|r| - |user| - 1] == OutputFile
    ensures addDefaults ==> DefaultIgnorePatterns <= r
    ensures |r| == (if addDefaults then |DefaultIgnorePatterns| else 0) + 1 + |user|
  {
    var base := if addDefaults then DefaultIgnorePatterns + [OutputFile] else [OutputFile];
    var r := base + user;
    assert r[|base| - 1] == OutputFile;
    r
  }

  /** The configuration a run works with. */
  function ConfigOf(o: Options): (c: Config)
    ensures OutputFile in c.ignorePatterns
    ensures o.includeOption == [] ==> c.includePatterns == []
  {
    Config(IgnoreList(!o.removeDefault, UserPatterns(o.ignoreOption)), UserPatterns(o.includeOption))
  }

  /** A path is ignored when it matches some ignore pattern. */
  function Ignored(path: string, cfg: Config): bool
  {
    MatchesAny(path, cfg.ignorePatterns)
  }

  /** `shouldProcess`: with a non-empty include list, a path is processed iff
      some include pattern matches it; otherwise iff no ignore pattern does. */
  function ShouldProcess(path: string, cfg: Config): (r: bool)
    ensures |cfg.includePatterns| > 0 ==> (r <==> exists k :: 0 <= k < |cfg.includePatterns| && PatternMatches(cfg.includePatterns[k], path))
    ensures |cfg.includePatterns| == 0 ==> (r <==> forall k :: 0 <= k < |cfg.ignorePatterns| ==> !PatternMatches(cfg.ignorePatterns[k], path))
  {
    if |cfg.includePatterns| > 0 then MatchesAny(path, cfg.includePatterns) else !MatchesAny(path, cfg.ignorePatterns)
  }

  /** Being ignored under an assembled ignore list is the union of being matched
      by the defaults (when enabled), by the output file name, and by the
      user's patterns. */
  lemma IgnoreListMatches(path: string, addDefaults: bool, user: seq<string>)
    ensures MatchesAny(path, IgnoreList(addDefaults, user)) <==>
              || (addDefaults && MatchesAny(path, DefaultIgnorePatterns))
              || PatternMatches(OutputFile, path)
              || MatchesAny(path, user)
  {
    var base := if addDefaults then DefaultIgnorePatterns + [OutputFile] else [OutputFile];
    assert IgnoreList(addDefaults, user) == base + user;
    MatchesAnyConcat(path, base, user);
    if addDefaults {
      MatchesAnyConcat(path, DefaultIgnorePatterns, [OutputFile]);
    }
    assert MatchesAny(path, [OutputFile]) == PatternMatches(OutputFile, path);
  }

  /** With a non-empty include list, `shouldProcess` never consults the ignore
      list: two configurations with the same include list agree on every path. */
  lemma IncludeListDecidesAlone(path: string, c1: Config, c2: Config)
    requires c1.includePatterns == c2.includePatterns && |c1.includePatterns| > 0
    ensures ShouldProcess(path, c1) == ShouldProcess(path, c2)
  {
  }

  /** With an empty include list, `shouldProcess` is exactly "not ignored". */
  lemma NoIncludeMeansNotIgnored(path: string, cfg: Config)
    requires cfg.includePatterns == []
    ensures ShouldProcess(path, cfg) == !Ignored(path, cfg)
  {
  }
}
