/**
 Consequences of the model on the built-in ignore list and on small
 directories: the behaviours the tool is usually explained with, each proved
 from the general lemmas of the other modules.
 */
module Scenarios {
  import opened Text
  import opened Regex
  import opened Patterns
  import opened Defaults
  import opened Selection
  import opened Walker
  import opened Render

  /** A character that path normalisation leaves alone and a regular
      expression `.` matches. */
  predicate PlainChar(c: char)
  {
    c != '\\' && !('A' <= c <= 'Z') && !IsLineTerminator(c)
  }

  /** A string of plain characters is its own normal form. */
  lemma PlainIsNormal(s: string)
    requires forall i :: 0 <= i < |s| ==> PlainChar(s[i])
    ensures NormalizePath(s) == s && Lower(s) == s && NoLineTerminator(s)
  {
    assert SlashSep(s) == s;
  }

  /** A slash-free string is its own basename. */
  lemma BasenameOfSlashFree(s: string)
    requires '/' !in s
    ensures Basename(s) == s
  {
    var i, j :| 0 <= i <= j <= |s| && Basename(s) == s[i..j]
              && (i == 0 || s[i - 1] == '/')
              && (forall k :: j <= k < |s| ==> s[k] == '/');
    assert |s| > 0 ==> s[|s| - 1] != '/';
    assert j == |s|;
    assert i == 0;
  }

  /** The basename of `d/f` is `f` when `f` is a non-empty slash-free name. */
  lemma BasenameAfterSlash(d: string, f: string)
    requires f != [] && '/' !in f
    ensures Basename(d + "/" + f) == f
  {
    var s := d + "/" + f;
    var n := |d| + 1;
    var b := Basename(s);
    assert '/' !in b;
    var i, j :| 0 <= i <= j <= |s| && b == s[i..j]
              && (i == 0 || s[i - 1] == '/')
              && (forall k :: j <= k < |s| ==> s[k] == '/');
    assert s[|s| - 1] == f[|f| - 1];
    assert j == |s|;
    assert s[n - 1] == '/';
    assert i >= n;
    assert i == n;
    assert s[n..] == f;
  }

  /** A literal without backslashes or upper-case letters survives
      normalisation of any path it sits in. */
  lemma InfixOccurs(pre: string, w: string, post: string)
    requires forall i :: 0 <= i < |w| ==> w[i] != '\\' && !('A' <= w[i] <= 'Z')
    ensures OccursAt(NormalizePath(pre + w + post), w, |pre|)
  {
    var p := pre + w + post;
    var np := NormalizePath(p);
    forall m | 0 <= m < |w|
      ensures np[|pre| + m] == w[m]
    {
      assert p[|pre| + m] == w[m];
    }
    assert np[|pre|..|pre| + |w|] == w;
  }

  /** Normalising a path without separators of either kind yields no `/`. */
  lemma NoSeparatorAfterNormalizing(p: string)
    requires '/' !in p && '\\' !in p
    ensures '/' !in NormalizePath(p)
  {
    var np := NormalizePath(p);
    forall i | 0 <= i < |np|
      ensures np[i] != '/'
    {
      assert p[i] in p;
    }
  }

  /** Normalisation works character by character, so it distributes over
      `dir + "/" + name`. */
  lemma NormalizeChild(dir: string, name: string)
    ensures NormalizePath(dir + "/" + name) == NormalizePath(dir) + "/" + NormalizePath(name)
  {
    var p := dir + "/" + name;
    var np, nd, nn := NormalizePath(p), NormalizePath(dir), NormalizePath(name);
    var r := nd + "/" + nn;
    forall i | 0 <= i < |p|
      ensures np[i] == r[i]
    {
      if i < |dir| {
        assert p[i] == dir[i] && r[i] == nd[i];
      } else if i == |dir| {
        assert p[i] == '/' && r[i] == '/';
      } else {
        assert p[i] == name[i - |dir| - 1] && r[i] == nn[i - |dir| - 1];
      }
    }
    assert np == r;
  }

  // ---------------------------------------------------------------------
  // Wildcards are unanchored
  // ---------------------------------------------------------------------

  /** `*w` splits into the empty piece and `w`. */
  lemma StarSplit(w: string)
    requires '*' !in w
    ensures Split("*" + w, '*') == ["", w]
  {
    assert "*" + w == [] + ['*'] + w;
    SplitPrefix([], w, '*');
    SplitNoSeparator(w, '*');
  }

  /** An empty first piece occurs anywhere, so `["", w]` is in order wherever
      `w` occurs. */
  lemma EmptyThenPiece(w: string, b: string, i: int)
    requires OccursAtIgnoringCase(b, w, i)
    ensures InOrder(["", w], b)
  {
    var qs := [w];
    assert qs[0] == w && qs[1..] == [];
    assert OccursAtIgnoringCase(b, qs[0], i) && InOrder(qs[1..], b[i + |qs[0]|..]);
    var ps := ["", w];
    assert ps[0] == [] && ps[1..] == [w];
    assert b[0 + |ps[0]|..] == b;
    assert OccursAtIgnoringCase(b, ps[0], 0) && InOrder(ps[1..], b[0 + |ps[0]|..]);
  }

  /** A pattern made of a leading `*` and a literal matches every path whose
      basename holds the literal anywhere, in any letter case. */
  lemma LeadingStarMatches(w: string, path: string, i: int)
    requires '*' !in w && '/' !in w
    requires NoLineTerminator(path)
    requires OccursAtIgnoringCase(Basename(NormalizePath(path)), w, i)
    ensures PatternMatches("*" + w, path)
  {
    StarSplit(w);
    EmptyThenPiece(w, Basename(NormalizePath(path)), i);
    assert '/' !in "*" + w;
  }

  /** What normalisation does to a file name `stem + w + tail` made of
      characters that are neither separators nor line breaks. */
  lemma NameFacts(stem: string, w: string, tail: string)
    requires forall c :: c in stem + w + tail ==> c != '/' && c != '\\' && !IsLineTerminator(c)
    ensures '/' !in w && '/' !in NormalizePath(stem + w + tail)
    ensures NoLineTerminator(stem + w + tail)
    ensures OccursAtIgnoringCase(NormalizePath(stem + w + tail), w, |stem|)
  {
    var p := stem + w + tail;
    forall i | 0 <= i < |p|
      ensures p[i] != '/' && p[i] != '\\' && !IsLineTerminator(p[i])
    {
      assert p[i] in p;
    }
    forall i | 0 <= i < |w|
      ensures w[i] != '/'
    {
      assert w[i] == p[|stem| + i];
    }
    NoSeparatorAfterNormalizing(p);
    var np := NormalizePath(p);
    forall m | 0 <= m < |w|
      ensures LowerChar(np[|stem|..|stem| + |w|][m]) == LowerChar(w[m])
    {
      assert p[|stem| + m] == w[m];
      LowerCharIdempotent(w[m]);
    }
  }

  /** `*w` matches every plain file name that holds `w` anywhere, not only at
      its end: the expression `*w` compiles to is not anchored
      (src/index.ts:47, 56-59). */
  lemma StarLiteralMatchesInName(w: string, stem: string, tail: string)
    requires '*' !in w
    requires forall c :: c in stem + w + tail ==> c != '/' && c != '\\' && !IsLineTerminator(c)
    ensures PatternMatches("*" + w, stem + w + tail)
  {
    var p := stem + w + tail;
    NameFacts(stem, w, tail);
    BasenameOfSlashFree(NormalizePath(p));
    LeadingStarMatches(w, p, |stem|);
  }

  lemma ChildHasNoLineTerminator(dir: string, name: string)
    requires NoLineTerminator(dir) && NoLineTerminator(name)
    ensures NoLineTerminator(dir + "/" + name)
  {
    var p := dir + "/" + name;
    forall i | 0 <= i < |p|
      ensures !IsLineTerminator(p[i])
    {
      if i < |dir| {
        assert p[i] == dir[i];
      } else if i > |dir| {
        assert p[i] == name[i - |dir| - 1];
      }
    }
  }

  lemma BasenameOfChild(dir: string, name: string)
    requires NormalizePath(name) != [] && '/' !in NormalizePath(name)
    ensures Basename(NormalizePath(dir + "/" + name)) == NormalizePath(name)
  {
    NormalizeChild(dir, name);
    BasenameAfterSlash(NormalizePath(dir), NormalizePath(name));
  }

  /** The same holds for such a file in any directory: the glob is matched against
      the basename. */
  lemma StarLiteralMatchesBelow(dir: string, w: string, stem: string, tail: string)
    requires '*' !in w && w != []
    requires NoLineTerminator(dir)
    requires forall c :: c in stem + w + tail ==> c != '/' && c != '\\' && !IsLineTerminator(c)
    ensures PatternMatches("*" + w, dir + "/" + (stem + w + tail))
  {
    var name := stem + w + tail;
    NameFacts(stem, w, tail);
    ChildHasNoLineTerminator(dir, name);
    BasenameOfChild(dir, name);
    LeadingStarMatches(w, dir + "/" + name, |stem|);
  }

  /** The default `*.log` also ignores `access.logger` and `x.login.ts`
      (src/constants.ts:3). */
  lemma LogPatternIsUnanchored(stem: string, tail: string)
    requires forall c :: c in stem + ".log" + tail ==> c != '/' && c != '\\' && !IsLineTerminator(c)
    ensures PatternMatches("*.log", stem + ".log" + tail)
  {
    assert "*.log" == "*" + ".log";
    StarLiteralMatchesInName(".log", stem, tail);
  }

  /** Likewise the scratch-file defaults `*.env`, `*.bak`, `*.tmp` and `*.swp`
      ignore every name that merely holds their extension, such as
      `a.environment` (src/constants.ts:52-55). */
  lemma ScratchPatternsAreUnanchored(k: int, stem: string, tail: string)
    requires 0 <= k < |ScratchPatterns|
    requires forall c :: c in stem + ScratchPatterns[k][1..] + tail ==> c != '/' && c != '\\' && !IsLineTerminator(c)
    ensures PatternMatches(ScratchPatterns[k], stem + ScratchPatterns[k][1..] + tail)
  {
    var w := ScratchPatterns[k][1..];
    assert ScratchPatterns[k] == "*" + w;
    assert '*' !in w;
    StarLiteralMatchesInName(w, stem, tail);
  }

  // ---------------------------------------------------------------------
  // Bare patterns match anywhere in the path
  // ---------------------------------------------------------------------

  /** A star-free ignore pattern ignores every path that contains it, in any
      letter case. */
  lemma StarFreeIgnoredWherever(q: string, path: string, cfg: Config)
    requires q in cfg.ignorePatterns && q != [] && '*' !in q
    requires Contains(NormalizePath(path), Lower(q))
    ensures Ignored(path, cfg)
  {
    StarFreePatternIsSubstring(q, path);
    var k :| 0 <= k < |cfg.ignorePatterns| && cfg.ignorePatterns[k] == q;
  }

  /** A star-free pattern without backslashes or upper-case letters matches
      every path it occurs in. */
  lemma StarFreePatternMatchesInside(q: string, pre: string, post: string)
    requires q != [] && '*' !in q
    requires forall i :: 0 <= i < |q| ==> q[i] != '\\' && !('A' <= q[i] <= 'Z')
    ensures PatternMatches(q, pre + q + post)
  {
    InfixOccurs(pre, q, post);
    assert Lower(q) == q;
    StarFreePatternIsSubstring(q, pre + q + post);
  }

  /** ... so as an ignore pattern it ignores every such path. */
  lemma PlainPatternIgnoresInside(q: string, pre: string, post: string, cfg: Config)
    requires q in cfg.ignorePatterns && q != [] && '*' !in q
    requires forall i :: 0 <= i < |q| ==> q[i] != '\\' && !('A' <= q[i] <= 'Z')
    ensures Ignored(pre + q + post, cfg)
  {
    StarFreePatternMatchesInside(q, pre, post);
    var k :| 0 <= k < |cfg.ignorePatterns| && cfg.ignorePatterns[k] == q;
  }

  /** Normalisation works character by character, so it distributes over
      concatenation. */
  lemma NormalizeConcat(a: string, b: string)
    ensures NormalizePath(a + b) == NormalizePath(a) + NormalizePath(b)
  {
    SlashSepConcat(a, b);
    LowerConcat(SlashSep(a), SlashSep(b));
  }

  lemma SlashSepConcat(a: string, b: string)
    ensures SlashSep(a + b) == SlashSep(a) + SlashSep(b)
  {
    var l, r := SlashSep(a + b), SlashSep(a) + SlashSep(b);
    forall i | 0 <= i < |a + b|
      ensures l[i] == r[i]
    {
      if i < |a| {
        assert (a + b)[i] == a[i];
      } else {
        assert (a + b)[i] == b[i - |a|];
      }
    }
  }

  lemma LowerConcat(a: string, b: string)
    ensures Lower(a + b) == Lower(a) + Lower(b)
  {
    var l, r := Lower(a + b), Lower(a) + Lower(b);
    forall i | 0 <= i < |a + b|
      ensures l[i] == r[i]
    {
      if i < |a| {
        assert (a + b)[i] == a[i];
      } else {
        assert (a + b)[i] == b[i - |a|];
      }
    }
  }

  /** A star-free ignore pattern ignores every path with a piece that
      normalises to the pattern, in any letter case and with either
      separator: `.DS_Store` ignores `x/.ds_store/y` and `.DS_STORE.bak`. */
  lemma StarFreeIgnoresInside(q: string, pre: string, w: string, post: string, cfg: Config)
    requires q in cfg.ignorePatterns && q != [] && '*' !in q
    requires NormalizePath(w) == Lower(q)
    ensures Ignored(pre + w + post, cfg)
  {
    var np, nw, nt := NormalizePath(pre), NormalizePath(w), NormalizePath(post);
    NormalizeConcat(pre + w, post);
    NormalizeConcat(pre, w);
    assert NormalizePath(pre + w + post) == np + nw + nt;
    assert (np + nw + nt)[|np|..|np| + |nw|] == nw;
    assert OccursAt(NormalizePath(pre + w + post), Lower(q), |np|);
    StarFreeIgnoredWherever(q, pre + w + post, cfg);
  }

  /** No key anywhere in a walk's tree contains a star-free ignore pattern. */
  lemma NoKeyContainsBarePattern(root: Listing, cfg: Config, q: string)
    requires q in cfg.ignorePatterns && q != [] && '*' !in q
    ensures forall n :: n in Nodes(Walk(root, cfg).tree) ==> !Contains(NormalizePath(n.key), Lower(q))
  {
    WalkAdmitted(root, cfg);
    forall n | n in Nodes(Walk(root, cfg).tree)
      ensures !Contains(NormalizePath(n.key), Lower(q))
    {
      StarFreePatternIsSubstring(q, n.key);
      var k :| 0 <= k < |cfg.ignorePatterns| && cfg.ignorePatterns[k] == q;
    }
  }

  /** The defaults hold, at these positions, the bare patterns for dependency
      and build output directories and the `.git/` pattern. */
  lemma DefaultEntries()
    ensures DefaultIgnorePatterns[0] == "node_modules"
    ensures DefaultIgnorePatterns[2] == "dist"
    ensures DefaultIgnorePatterns[3] == "build"
    ensures DefaultIgnorePatterns[4] == "coverage"
    ensures DefaultIgnorePatterns[10] == ".git/"
  {
  }

  /** With the defaults on, the ignore list starts with them
      (src/index.ts:30-33): the configurations the lemmas below speak of. */
  lemma DefaultsComeFirst(o: Options)
    requires !o.removeDefault
    ensures DefaultIgnorePatterns <= ConfigOf(o).ignorePatterns
  {
  }

  /** The star-free default pattern at position `k` keeps every key that
      contains it, in any letter case, out of the tree. */
  lemma DefaultBarePatternPrunes(root: Listing, cfg: Config, k: int)
    requires DefaultIgnorePatterns <= cfg.ignorePatterns && 0 <= k < |DefaultIgnorePatterns|
    requires DefaultIgnorePatterns[k] != [] && '*' !in DefaultIgnorePatterns[k]
    ensures forall n :: n in Nodes(Walk(root, cfg).tree) ==>
              !Contains(NormalizePath(n.key), Lower(DefaultIgnorePatterns[k]))
  {
    assert cfg.ignorePatterns[k] == DefaultIgnorePatterns[k];
    NoKeyContainsBarePattern(root, cfg, DefaultIgnorePatterns[k]);
  }

  /** A non-empty, star-free word of plain characters. */
  predicate BareWord(w: string)
  {
    w != [] && '*' !in w && forall i :: 0 <= i < |w| ==> PlainChar(w[i])
  }

  lemma BuildWordsAreBare()
    ensures BareWord("node_modules") && BareWord("dist") && BareWord("build") && BareWord("coverage")
  {
  }

  /** A bare default word keeps every key that contains it out of the tree. */
  lemma DefaultWordPrunes(root: Listing, cfg: Config, k: int, w: string)
    requires DefaultIgnorePatterns <= cfg.ignorePatterns && 0 <= k < |DefaultIgnorePatterns|
    requires DefaultIgnorePatterns[k] == w && BareWord(w)
    ensures forall n :: n in Nodes(Walk(root, cfg).tree) ==> !Contains(NormalizePath(n.key), w)
  {
    PlainIsNormal(w);
    DefaultBarePatternPrunes(root, cfg, k);
  }

  /** With the defaults first in the ignore list, no key anywhere in the tree
      contains `node_modules`, `dist`, `build` or `coverage`, in any letter
      case, as a directory name or inside a longer name (src/constants.ts:2-6,
      src/index.ts:59). */
  lemma DefaultsPruneBuildOutput(root: Listing, cfg: Config)
    requires DefaultIgnorePatterns <= cfg.ignorePatterns
    ensures forall n :: n in Nodes(Walk(root, cfg).tree) ==>
              && !Contains(NormalizePath(n.key), "node_modules")
              && !Contains(NormalizePath(n.key), "dist")
              && !Contains(NormalizePath(n.key), "build")
              && !Contains(NormalizePath(n.key), "coverage")
  {
    DefaultEntries();
    BuildWordsAreBare();
    DefaultWordPrunes(root, cfg, 0, "node_modules");
    DefaultWordPrunes(root, cfg, 2, "dist");
    DefaultWordPrunes(root, cfg, 3, "build");
    DefaultWordPrunes(root, cfg, 4, "coverage");
  }

  /** With the defaults first in the ignore list, every path with `dist`
      anywhere in it is ignored, `src/distance.ts` included: a bare pattern
      is also a substring test (src/constants.ts:4, src/index.ts:59). */
  lemma DistInsideNameIsIgnored(cfg: Config, pre: string, post: string)
    requires DefaultIgnorePatterns <= cfg.ignorePatterns
    ensures Ignored(pre + "dist" + post, cfg)
  {
    DefaultEntries();
    assert cfg.ignorePatterns[2] == "dist";
    PlainPatternIgnoresInside("dist", pre, post, cfg);
  }

  lemma DsStoreEntry()
    ensures DefaultIgnorePatterns[11] == ".DS_Store"
  {
  }

  lemma DsStoreLowered()
    ensures ".DS_Store" != [] && '*' !in ".DS_Store"
    ensures Lower(".DS_Store") == ".ds_store"
  {
    LowerPointwise(".DS_Store", ".ds_store");
  }

  /** Lower-casing is fixed by its characters. */
  lemma LowerPointwise(s: string, t: string)
    requires |s| == |t| && forall i :: 0 <= i < |s| ==> LowerChar(s[i]) == t[i]
    ensures Lower(s) == t
  {
  }

  /** With the defaults first in the ignore list, the mixed-case default
      `.DS_Store` ignores every path with a piece that normalises to
      `.ds_store`, whatever its letter case (src/constants.ts:13,
      src/index.ts:47, 59). */
  lemma DsStoreIgnoredInAnyCase(cfg: Config, pre: string, w: string, post: string)
    requires DefaultIgnorePatterns <= cfg.ignorePatterns
    requires NormalizePath(w) == ".ds_store"
    ensures Ignored(pre + w + post, cfg)
  {
    DsStoreEntry();
    DsStoreLowered();
    assert cfg.ignorePatterns[11] == ".DS_Store";
    StarFreeIgnoresInside(".DS_Store", pre, w, post, cfg);
  }

  // ---------------------------------------------------------------------
  // `.git/` needs a separator
  // ---------------------------------------------------------------------

  /** The normalised key ends in `.git`. */
  predicate EndsWithGit(key: string)
  {
    var np := NormalizePath(key);
    |np| >= 4 && np[|np| - 4..] == ".git"
  }

  /** `.git/` holds a separator, so it is matched against the whole path only:
      it misses every path without a separator, the directory `.git` itself
      included (src/constants.ts:12, src/index.ts:49-52). */
  lemma GitPatternNeedsSeparator(p: string)
    requires '/' !in p && '\\' !in p
    ensures !PatternMatches(".git/", p)
  {
    NoSeparatorAfterNormalizing(p);
    ForeignCharacterRefutes(".git/", p, 4);
  }

  /** ... and it matches every path whose normal form holds `.git/`, so
      `a/.GIT/x` and `a\.git\x` too. */
  lemma GitPatternMatchesInside(p: string)
    requires Contains(NormalizePath(p), ".git/")
    ensures PatternMatches(".git/", p)
  {
    GitPatternIsPlain();
    StarFreePatternIsSubstring(".git/", p);
  }

  /** A path that a star-free ignore pattern spares does not contain it. */
  lemma SparedPathLacksPattern(q: string, path: string, cfg: Config)
    requires q in cfg.ignorePatterns && q != [] && '*' !in q
    requires !Ignored(path, cfg)
    ensures !Contains(NormalizePath(path), Lower(q))
  {
    StarFreePatternIsSubstring(q, path);
    var k :| 0 <= k < |cfg.ignorePatterns| && cfg.ignorePatterns[k] == q;
  }

  /** The normalised path of an entry starts with its directory's normalised
      key and a slash. */
  lemma NormalizedChildPrefix(k: string, c: string)
    requires k + "/" <= c
    ensures |NormalizePath(c)| == |c|
    ensures NormalizePath(c)[..|k| + 1] == NormalizePath(k) + "/"
  {
    var nk, nc := NormalizePath(k), NormalizePath(c);
    forall i | 0 <= i <= |k|
      ensures nc[i] == (nk + "/")[i]
    {
      assert c[i] == (k + "/")[i];
    }
  }

  /** The path of an entry of a directory whose key ends in `.git` holds
      `.git/` where the directory's key ends. */
  lemma GitChildPath(k: string, c: string)
    requires k + "/" <= c
    ensures EndsWithGit(k) ==> OccursAt(NormalizePath(c), ".git/", |k| - 4)
  {
    if EndsWithGit(k) {
      var nk, nc := NormalizePath(k), NormalizePath(c);
      var at := |k| - 4;
      NormalizedChildPrefix(k, c);
      var p := nc[..|k| + 1];
      assert nc[at..at + 5] == p[at..];
      assert p[at..] == nk[at..] + "/";
    }
  }

  lemma GitPatternIsPlain()
    ensures ".git/" != [] && '*' !in ".git/"
    ensures Lower(".git/") == ".git/"
  {
  }

  /** A directory with an entry that `.git/` spares does not end in `.git`. */
  lemma GitParentShown(k: string, c: string, cfg: Config)
    requires ".git/" in cfg.ignorePatterns
    requires k + "/" <= c && !Ignored(c, cfg)
    ensures !EndsWithGit(k)
  {
    GitPatternIsPlain();
    SparedPathLacksPattern(".git/", c, cfg);
    GitChildPath(k, c);
  }

  /** With `.git/` in the ignore list, no directory whose key ends in `.git`
      appears anywhere in the tree: each of its entries is ignored, so it
      has no children to be attached with (src/index.ts:84-89). */
  lemma GitDirectoriesVanish(root: Listing, cfg: Config)
    requires ".git/" in cfg.ignorePatterns
    ensures forall n :: n in Nodes(Walk(root, cfg).tree) && n.Branch? ==> !EndsWithGit(n.key)
  {
    var ts := Walk(root, cfg).tree;
    WalkAdmitted(root, cfg);
    NodesClosed(ts);
    forall n | n in Nodes(ts) && n.Branch?
      ensures !EndsWithGit(n.key)
    {
      assert Admitted(n, cfg);
      var c := n.children[0];
      assert c in n.children;
      assert Admitted(c, cfg);
      if n.key != [] {
        GitParentShown(n.key, c.key, cfg);
      }
    }
  }

  /** With the defaults first in the ignore list, no `.git` directory
      survives (src/constants.ts:12). */
  lemma DefaultsDropGitDirectories(root: Listing, cfg: Config)
    requires DefaultIgnorePatterns <= cfg.ignorePatterns
    ensures forall n :: n in Nodes(Walk(root, cfg).tree) && n.Branch? ==> !EndsWithGit(n.key)
  {
    DefaultEntries();
    assert cfg.ignorePatterns[10] == ".git/";
    GitDirectoriesVanish(root, cfg);
  }

  // ---------------------------------------------------------------------
  // Refuting patterns by a character the path lacks
  // ---------------------------------------------------------------------

  /** Position `j` of pattern `w` holds a character that is not `*`, is no
      upper-case letter, and does not occur in `s`. */
  predicate ForeignAt(w: string, j: int, s: string)
  {
    0 <= j < |w| && w[j] != '*' && !('A' <= w[j] <= 'Z') && w[j] !in s
  }

  /** Some literal character of `w` is missing from `s`. */
  predicate Refuted(w: string, s: string)
  {
    exists j | 0 <= j < |w| :: ForeignAt(w, j, s)
  }

  /** Every pattern of `ps` is refuted by `s`. */
  predicate AllRefuted(ps: seq<string>, s: string)
  {
    forall k | 0 <= k < |ps| :: Refuted(ps[k], s)
  }

  lemma RefutedConcat(a: seq<string>, b: seq<string>, s: string)
    requires AllRefuted(a, s) && AllRefuted(b, s)
    ensures AllRefuted(a + b, s)
  {
    forall k | 0 <= k < |a + b|
      ensures Refuted((a + b)[k], s)
    {
      if k < |a| {
        assert (a + b)[k] == a[k];
      } else {
        assert (a + b)[k] == b[k - |a|];
      }
    }
  }

  /** A list whose every pattern holds a literal character the normalised
      path lacks matches nothing. */
  lemma AllRefutedNeverMatches(ps: seq<string>, path: string)
    requires AllRefuted(ps, NormalizePath(path))
    ensures !MatchesAny(path, ps)
  {
    forall k | 0 <= k < |ps|
      ensures !PatternMatches(ps[k], path)
    {
      var j :| 0 <= j < |ps[k]| && ForeignAt(ps[k], j, NormalizePath(path));
      assert LowerChar(ps[k][j]) == ps[k][j];
      ForeignCharacterRefutes(ps[k], path, j);
    }
  }

  lemma ToolingPatternsSpareATxt()
    ensures AllRefuted(ToolingPatterns, "a.txt")
  {
    forall k | 0 <= k < |ToolingPatterns|
      ensures Refuted(ToolingPatterns[k], "a.txt")
    {
      if k == 0 {
        assert ForeignAt(ToolingPatterns[0], 0, "a.txt");
      } else if k == 1 {
        assert ForeignAt(ToolingPatterns[1], 2, "a.txt");
      } else if k == 2 {
        assert ForeignAt(ToolingPatterns[2], 0, "a.txt");
      } else if k == 3 {
        assert ForeignAt(ToolingPatterns[3], 0, "a.txt");
      } else if k == 4 {
        assert ForeignAt(ToolingPatterns[4], 0, "a.txt");
      } else if k == 5 {
        assert ForeignAt(ToolingPatterns[5], 0, "a.txt");
      } else if k == 6 {
        assert ForeignAt(ToolingPatterns[6], 1, "a.txt");
      } else if k == 7 {
        assert ForeignAt(ToolingPatterns[7], 1, "a.txt");
      } else if k == 8 {
        assert ForeignAt(ToolingPatterns[8], 1, "a.txt");
      } else if k == 9 {
        assert ForeignAt(ToolingPatterns[9], 1, "a.txt");
      } else if k == 10 {
        assert ForeignAt(ToolingPatterns[10], 1, "a.txt");
      } else if k == 11 {
        assert ForeignAt(ToolingPatterns[11], 3, "a.txt");
      } else if k == 12 {
        assert ForeignAt(ToolingPatterns[12], 1, "a.txt");
      } else if k == 13 {
        assert ForeignAt(ToolingPatterns[13], 0, "a.txt");
      } else {
        assert k == 14;
        assert ForeignAt(ToolingPatterns[14], 1, "a.txt");
      }
    }
  }

  lemma ImagePatternsSpareATxt()
    ensures AllRefuted(ImagePatterns, "a.txt")
  {
    forall k | 0 <= k < |ImagePatterns|
      ensures Refuted(ImagePatterns[k], "a.txt")
    {
      if k == 0 {
        assert ForeignAt(ImagePatterns[0], 1, "a.txt");
      } else if k == 1 {
        assert ForeignAt(ImagePatterns[1], 1, "a.txt");
      } else if k == 2 {
        assert ForeignAt(ImagePatterns[2], 1, "a.txt");
      } else if k == 3 {
        assert ForeignAt(ImagePatterns[3], 1, "a.txt");
      } else if k == 4 {
        assert ForeignAt(ImagePatterns[4], 1, "a.txt");
      } else if k == 5 {
        assert ForeignAt(ImagePatterns[5], 1, "a.txt");
      } else if k == 6 {
        assert ForeignAt(ImagePatterns[6], 1, "a.txt");
      } else if k == 7 {
        assert ForeignAt(ImagePatterns[7], 2, "a.txt");
      } else if k == 8 {
        assert ForeignAt(ImagePatterns[8], 2, "a.txt");
      } else if k == 9 {
        assert ForeignAt(ImagePatterns[9], 1, "a.txt");
      } else if k == 10 {
        assert ForeignAt(ImagePatterns[10], 1, "a.txt");
      } else if k == 11 {
        assert ForeignAt(ImagePatterns[11], 1, "a.txt");
      } else {
        assert k == 12;
        assert ForeignAt(ImagePatterns[12], 1, "a.txt");
      }
    }
  }

  lemma FontPatternsSpareATxt()
    ensures AllRefuted(FontPatterns, "a.txt")
  {
    forall k | 0 <= k < |FontPatterns|
      ensures Refuted(FontPatterns[k], "a.txt")
    {
      if k == 0 {
        assert ForeignAt(FontPatterns[0], 3, "a.txt");
      } else if k == 1 {
        assert ForeignAt(FontPatterns[1], 1, "a.txt");
      } else if k == 2 {
        assert ForeignAt(FontPatterns[2], 1, "a.txt");
      } else if k == 3 {
        assert ForeignAt(FontPatterns[3], 1, "a.txt");
      } else if k == 4 {
        assert ForeignAt(FontPatterns[4], 1, "a.txt");
      } else if k == 5 {
        assert ForeignAt(FontPatterns[5], 1, "a.txt");
      } else if k == 6 {
        assert ForeignAt(FontPatterns[6], 1, "a.txt");
      } else if k == 7 {
        assert ForeignAt(FontPatterns[7], 1, "a.txt");
      } else if k == 8 {
        assert ForeignAt(FontPatterns[8], 1, "a.txt");
      } else if k == 9 {
        assert ForeignAt(FontPatterns[9], 1, "a.txt");
      } else if k == 10 {
        assert ForeignAt(FontPatterns[10], 1, "a.txt");
      } else {
        assert k == 11;
        assert ForeignAt(FontPatterns[11], 2, "a.txt");
      }
    }
  }

  lemma DocumentPatternsSpareATxt()
    ensures AllRefuted(DocumentPatterns, "a.txt")
  {
    forall k | 0 <= k < |DocumentPatterns|
      ensures Refuted(DocumentPatterns[k], "a.txt")
    {
      if k == 0 {
        assert ForeignAt(DocumentPatterns[0], 1, "a.txt");
      } else if k == 1 {
        assert ForeignAt(DocumentPatterns[1], 1, "a.txt");
      } else if k == 2 {
        assert ForeignAt(DocumentPatterns[2], 1, "a.txt");
      } else if k == 3 {
        assert ForeignAt(DocumentPatterns[3], 1, "a.txt");
      } else if k == 4 {
        assert ForeignAt(DocumentPatterns[4], 1, "a.txt");
      } else if k == 5 {
        assert ForeignAt(DocumentPatterns[5], 1, "a.txt");
      } else if k == 6 {
        assert ForeignAt(DocumentPatterns[6], 2, "a.txt");
      } else if k == 7 {
        assert ForeignAt(DocumentPatterns[7], 2, "a.txt");
      } else if k == 8 {
        assert ForeignAt(DocumentPatterns[8], 1, "a.txt");
      } else {
        assert k == 9;
        assert ForeignAt(DocumentPatterns[9], 1, "a.txt");
      }
    }
  }

  lemma ScratchPatternsSpareATxt()
    ensures AllRefuted(ScratchPatterns, "a.txt")
  {
    forall k | 0 <= k < |ScratchPatterns|
      ensures Refuted(ScratchPatterns[k], "a.txt")
    {
      if k == 0 {
        assert ForeignAt(ScratchPatterns[0], 2, "a.txt");
      } else if k == 1 {
        assert ForeignAt(ScratchPatterns[1], 2, "a.txt");
      } else if k == 2 {
        assert ForeignAt(ScratchPatterns[2], 3, "a.txt");
      } else {
        assert k == 3;
        assert ForeignAt(ScratchPatterns[3], 2, "a.txt");
      }
    }
  }

  lemma ConfigPatternsSpareATxt()
    ensures AllRefuted(ConfigPatterns, "a.txt")
  {
    forall k | 0 <= k < |ConfigPatterns|
      ensures Refuted(ConfigPatterns[k], "a.txt")
    {
      if k == 0 {
        assert ForeignAt(ConfigPatterns[0], 1, "a.txt");
      } else if k == 1 {
        assert ForeignAt(ConfigPatterns[1], 1, "a.txt");
      } else if k == 2 {
        assert ForeignAt(ConfigPatterns[2], 1, "a.txt");
      } else if k == 3 {
        assert ForeignAt(ConfigPatterns[3], 1, "a.txt");
      } else if k == 4 {
        assert ForeignAt(ConfigPatterns[4], 1, "a.txt");
      } else if k == 5 {
        assert ForeignAt(ConfigPatterns[5], 1, "a.txt");
      } else if k == 6 {
        assert ForeignAt(ConfigPatterns[6], 1, "a.txt");
      } else if k == 7 {
        assert ForeignAt(ConfigPatterns[7], 1, "a.txt");
      } else if k == 8 {
        assert ForeignAt(ConfigPatterns[8], 1, "a.txt");
      } else if k == 9 {
        assert ForeignAt(ConfigPatterns[9], 0, "a.txt");
      } else if k == 10 {
        assert ForeignAt(ConfigPatterns[10], 1, "a.txt");
      } else if k == 11 {
        assert ForeignAt(ConfigPatterns[11], 1, "a.txt");
      } else if k == 12 {
        assert ForeignAt(ConfigPatterns[12], 1, "a.txt");
      } else if k == 13 {
        assert ForeignAt(ConfigPatterns[13], 1, "a.txt");
      } else if k == 14 {
        assert ForeignAt(ConfigPatterns[14], 1, "a.txt");
      } else if k == 15 {
        assert ForeignAt(ConfigPatterns[15], 1, "a.txt");
      } else if k == 16 {
        assert ForeignAt(ConfigPatterns[16], 1, "a.txt");
      } else if k == 17 {
        assert ForeignAt(ConfigPatterns[17], 1, "a.txt");
      } else if k == 18 {
        assert ForeignAt(ConfigPatterns[18], 1, "a.txt");
      } else {
        assert k == 19;
        assert ForeignAt(ConfigPatterns[19], 1, "a.txt");
      }
    }
  }

  /** A file named `a.txt` at the root matches no default ignore pattern and
      not the output file name (src/constants.ts:1-76, src/index.ts:30-33). */
  lemma DefaultsSpareATxt()
    ensures !MatchesAny("a.txt", DefaultIgnorePatterns + [OutputFile])
  {
    ToolingPatternsSpareATxt();
    ImagePatternsSpareATxt();
    FontPatternsSpareATxt();
    DocumentPatternsSpareATxt();
    ScratchPatternsSpareATxt();
    ConfigPatternsSpareATxt();
    RefutedConcat(ToolingPatterns, ImagePatterns, "a.txt");
    RefutedConcat(ToolingPatterns + ImagePatterns, FontPatterns, "a.txt");
    RefutedConcat(ToolingPatterns + ImagePatterns + FontPatterns, DocumentPatterns, "a.txt");
    RefutedConcat(ToolingPatterns + ImagePatterns + FontPatterns + DocumentPatterns, ScratchPatterns, "a.txt");
    RefutedConcat(ToolingPatterns + ImagePatterns + FontPatterns + DocumentPatterns + ScratchPatterns, ConfigPatterns, "a.txt");
    assert ForeignAt([OutputFile][0], 0, "a.txt");
    RefutedConcat(DefaultIgnorePatterns, [OutputFile], "a.txt");
    var s := "a.txt";
    forall i | 0 <= i < |s|
      ensures PlainChar(s[i])
    {
      if i == 0 { } else if i == 1 { } else if i == 2 { } else if i == 3 { } else { }
    }
    PlainIsNormal(s);
    AllRefutedNeverMatches(DefaultIgnorePatterns + [OutputFile], s);
  }

  // ---------------------------------------------------------------------
  // Whole runs on small directories
  // ---------------------------------------------------------------------

  /** A directory holding `a.txt` and a dependency folder. */
  function Example(deps: Listing): Listing
  {
    Listed([File("a.txt", Readable("hello")), Dir("node_modules", deps)])
  }

  /** A name without backslashes is its own path at the root. */
  lemma RootChildPath(name: string)
    requires '\\' !in name
    ensures ChildPath("", name) == name
  {
    assert SlashSep(name) == name;
  }

  /** A root directory of two entries is walked by visiting the first, then
      the second (src/index.ts:80-81). */
  lemma TwoEntryWalk(e1: Entry, e2: Entry, cfg: Config)
    ensures Walk(Listed([e1, e2]), cfg) == Visit(e2, "", cfg, Visit(e1, "", cfg, Walked([], "")))
  {
    var es := [e1, e2];
    var w1 := Visit(e1, "", cfg, Walked([], ""));
    var w2 := Visit(e2, "", cfg, w1);
    assert es[1..] == [e2];
    assert [e2][1..] == [];
    assert ReadEntries([], "", cfg, w2) == w2;
    assert ReadEntries([e2], "", cfg, w1) == w2;
    assert ReadEntries(es, "", cfg, Walked([], "")) == ReadEntries([e2], "", cfg, w1);
  }

  /** A readable file at the root that no ignore pattern matches is listed and
      printed exactly when `shouldProcess` accepts it (src/index.ts:87-98). */
  lemma KeptFile(f: string, t: string, cfg: Config)
    requires '\\' !in f && !Ignored(f, cfg)
    ensures Visit(File(f, Readable(t)), "", cfg, Walked([], ""))
         == if ShouldProcess(f, cfg) then Walked([Leaf(f)], Record(f, t)) else Walked([], "")
  {
    RootChildPath(f);
    assert Put([], Leaf(f)) == [Leaf(f)];
  }

  /** An ignored directory is skipped whatever it holds: it is neither listed
      nor descended into (src/index.ts:84-85). */
  lemma IgnoredDirectoryIsSkipped(name: string, l: Listing, dir: string, cfg: Config, acc: Walked)
    requires Ignored(ChildPath(dir, name), cfg)
    ensures Visit(Dir(name, l), dir, cfg, acc) == acc
  {
  }

  /** A file beside an ignored directory: whatever the directory holds, the
      walk is the file's own record or nothing. */
  lemma FileBesideIgnoredDir(f: string, t: string, d: string, deps: Listing, cfg: Config)
    requires '\\' !in f && '\\' !in d
    requires Ignored(d, cfg) && !Ignored(f, cfg)
    ensures Walk(Listed([File(f, Readable(t)), Dir(d, deps)]), cfg)
         == if ShouldProcess(f, cfg) then Walked([Leaf(f)], Record(f, t)) else Walked([], "")
  {
    TwoEntryWalk(File(f, Readable(t)), Dir(d, deps), cfg);
    KeptFile(f, t, cfg);
    RootChildPath(d);
    IgnoredDirectoryIsSkipped(d, deps, "", cfg, Visit(File(f, Readable(t)), "", cfg, Walked([], "")));
  }

  lemma ExampleNamesArePlain()
    ensures '\\' !in "a.txt" && '\\' !in "node_modules"
  {
  }

  /** Whatever the include list and whatever `node_modules` holds, nothing
      under an ignored `node_modules` appears: the tree and the print hold
      `a.txt` exactly when it passes `shouldProcess` (src/index.ts:84-98). */
  lemma ExampleWalk(cfg: Config, deps: Listing)
    requires Ignored("node_modules", cfg) && !Ignored("a.txt", cfg)
    ensures Walk(Example(deps), cfg)
         == if ShouldProcess("a.txt", cfg) then Walked([Leaf("a.txt")], Record("a.txt", "hello")) else Walked([], "")
  {
    ExampleNamesArePlain();
    FileBesideIgnoredDir("a.txt", "hello", "node_modules", deps, cfg);
  }

  /** With the defaults on and no `--ignore`, the ignore list is the defaults
      and the output file name (src/index.ts:30-33). */
  lemma DefaultsOnly(o: Options)
    requires o.ignoreOption == [] && !o.removeDefault
    ensures ConfigOf(o).ignorePatterns == DefaultIgnorePatterns + [OutputFile]
  {
  }

  lemma DefaultsKeepATxt(o: Options)
    requires o.ignoreOption == [] && !o.removeDefault
    ensures !Ignored("a.txt", ConfigOf(o))
  {
    DefaultsOnly(o);
    DefaultsSpareATxt();
  }

  lemma NodeModulesListed(cfg: Config)
    requires DefaultIgnorePatterns <= cfg.ignorePatterns
    ensures "node_modules" in cfg.ignorePatterns
  {
    DefaultEntries();
    assert cfg.ignorePatterns[0] == "node_modules";
  }

  lemma NodeModulesIgnored(cfg: Config)
    requires "node_modules" in cfg.ignorePatterns
    ensures Ignored("node_modules", cfg)
  {
    PlainPatternIgnoresInside("node_modules", [], [], cfg);
    assert [] + "node_modules" + [] == "node_modules";
  }

  /** With the defaults on, `node_modules` is ignored whatever else the
      options say. */
  lemma DefaultsPruneNodeModules(o: Options)
    requires !o.removeDefault
    ensures Ignored("node_modules", ConfigOf(o))
  {
    DefaultsComeFirst(o);
    NodeModulesListed(ConfigOf(o));
    NodeModulesIgnored(ConfigOf(o));
  }

  /** A run with the defaults and no other options keeps `a.txt` and prunes
      `node_modules`, whatever it holds. */
  lemma ExampleWithDefaults(o: Options, deps: Listing)
    requires o.ignoreOption == [] && o.includeOption == [] && !o.removeDefault
    ensures Walk(Example(deps), ConfigOf(o)) == Walked([Leaf("a.txt")], Record("a.txt", "hello"))
  {
    DefaultsKeepATxt(o);
    DefaultsPruneNodeModules(o);
    NoIncludeMeansNotIgnored("a.txt", ConfigOf(o));
    ExampleWalk(ConfigOf(o), deps);
  }

  /** The document of a walk that kept one file at the root. */
  lemma OneFileDocument(f: string, body: string)
    ensures Document(Walked([Leaf(f)], body)) == Heading + f + "\n" + Separator + body
  {
    var ts := [Leaf(f)];
    assert ts[1..] == [];
    assert RenderTree(ts, "") == "" + f + "\n" + [] + [];
  }

  lemma ExampleDocument()
    ensures Heading + "a.txt" + "\n" + Separator + Record("a.txt", "hello")
         == "File structure:\na.txt\n\n\nProject print:\na.txt:\nhello\n\n"
  {
    assert Heading + "a.txt" + "\n" + Separator == "File structure:\na.txt\n\n\nProject print:\n";
    ExampleRecord();
  }

  lemma ExampleRecord()
    ensures Record("a.txt", "hello") == "a.txt:\nhello\n\n"
  {
  }

  /** ... and writes this document. */
  lemma RunWithDefaults(o: Options, deps: Listing)
    requires o.ignoreOption == [] && o.includeOption == [] && !o.removeDefault
    ensures Run(Example(deps), o) == "File structure:\na.txt\n\n\nProject print:\na.txt:\nhello\n\n"
  {
    ExampleWithDefaults(o, deps);
    OneFileDocument("a.txt", Record("a.txt", "hello"));
    ExampleDocument();
  }

  /** `--include "*.js"` becomes the include list `["*.js"]`. */
  lemma JsIncludeList(o: Options)
    requires o.includeOption == "*.js"
    ensures ConfigOf(o).includePatterns == ["*.js"]
  {
    assert Join(["*.js"], ',') == "*.js";
    UserPatternsJoin(["*.js"]);
  }

  lemma JsSkipsATxt(cfg: Config)
    requires cfg.includePatterns == ["*.js"]
    ensures !ShouldProcess("a.txt", cfg)
  {
    assert NormalizePath("a.txt") == "a.txt";
    ForeignCharacterRefutes("*.js", "a.txt", 2);
  }

  /** With `--include "*.js"` and the defaults on, the tree is empty even when
      `node_modules` holds scripts. The include list does not override the
      ignore list: `node_modules` is pruned before its entries are looked at,
      although `*.js` matches every script in it (StarLiteralMatchesBelow),
      and `a.txt` fails the include list (src/index.ts:65-72, 84-89). */
  lemma ExampleWithIncludeJs(o: Options, deps: Listing)
    requires o.ignoreOption == [] && o.includeOption == "*.js" && !o.removeDefault
    ensures Walk(Example(deps), ConfigOf(o)) == Walked([], "")
  {
    DefaultsKeepATxt(o);
    DefaultsPruneNodeModules(o);
    JsIncludeList(o);
    JsSkipsATxt(ConfigOf(o));
    ExampleWalk(ConfigOf(o), deps);
  }

  /** ... and the document is the two headings alone. */
  lemma RunWithIncludeJs(o: Options, deps: Listing)
    requires o.ignoreOption == [] && o.includeOption == "*.js" && !o.removeDefault
    ensures Run(Example(deps), o) == "File structure:\n\n\nProject print:\n"
  {
    ExampleWithIncludeJs(o, deps);
    EmptyDocument();
  }

  lemma EmptyDocument()
    ensures Document(Walked([], "")) == "File structure:\n\n\nProject print:\n"
  {
  }

  /** Read and listing failures are swallowed, other entries are skipped and
      an empty file is still recorded, with an empty body
      (src/index.ts:90-103, 106-109). */
  lemma FailuresAreSwallowed()
    ensures Walk(Listed([File("a", Unreadable), Dir("d", Unlistable), Other("l"), File("e", Readable(""))]), Config([], []))
         == Walked([Leaf("e")], "e:\n\n\n")
  {
    var cfg := Config([], []);
    var w0 := Walked([], "");
    var last := [File("e", Readable(""))];
    FailureIsSkipped(File("a", Unreadable), [Dir("d", Unlistable), Other("l")] + last, cfg);
    FailureIsSkipped(Dir("d", Unlistable), [Other("l")] + last, cfg);
    FailureIsSkipped(Other("l"), last, cfg);
    EmptyFileIsRecorded();
    assert [File("a", Unreadable), Dir("d", Unlistable), Other("l"), File("e", Readable(""))]
        == [File("a", Unreadable)] + ([Dir("d", Unlistable)] + ([Other("l")] + last));
  }

  /** An entry that cannot be read adds nothing to an empty walk. */
  lemma FailureIsSkipped(e: Entry, rest: seq<Entry>, cfg: Config)
    requires e == File("a", Unreadable) || e == Dir("d", Unlistable) || e == Other("l")
    ensures ReadEntries([e] + rest, "", cfg, Walked([], "")) == ReadEntries(rest, "", cfg, Walked([], ""))
  {
    assert ([e] + rest)[1..] == rest;
  }

  /** An empty file is still recorded, with an empty body. */
  lemma EmptyFileIsRecorded()
    ensures ReadEntries([File("e", Readable(""))], "", Config([], []), Walked([], "")) == Walked([Leaf("e")], "e:\n\n\n")
  {
    var cfg := Config([], []);
    assert ChildPath("", "e") == "e";
    assert ShouldProcess("e", cfg);
    assert [File("e", Readable(""))][1..] == [];
  }

}
