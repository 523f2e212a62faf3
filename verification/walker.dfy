/**
 The directory walk `readDirectory` (src/index.ts:74-110) over an abstract
 filesystem. A listing or a file read either succeeds or fails; a failure is
 swallowed and contributes nothing. The global tree and print accumulators
 (src/index.ts:7-8) become the `Walked` value threaded through the walk.
 */
module Walker {
  import opened Text
  import opened Patterns
  import opened Selection

  /** What `readFileSync(path, "utf8")` yields: the text, or a read error. */
  datatype Content = Readable(text: string) | Unreadable

  /** One directory entry as `readdirSync(..., { withFileTypes: true })` reports it.
      `Other` is anything neither a file nor a directory (a symbolic link,
      a socket, a device). */
  datatype Entry =
    | File(name: string, content: Content)
    | Dir(name: string, listing: Listing)
    | Other(name: string)

  /** What `readdirSync` yields for a directory: its entries in listing order,
      or a listing error. */
  datatype Listing = Listed(entries: seq<Entry>) | Unlistable

  /** The result tree. A file is a key mapped to an empty object, a directory a
      key mapped to the object built for it; children keep insertion order. */
  datatype Node = Leaf(key: string) | Branch(key: string, children: seq<Node>)

  /** The two accumulators of a walk: the tree being built and the print text. */
  datatype Walked = Walked(tree: seq<Node>, projectPrint: string)

  /** The root-relative, '/'-separated path of entry `name` inside the directory
      whose relative path is `dir` ("" for the root) (src/index.ts:80-81). */
  function ChildPath(dir: string, name: string): (r: string)
    ensures dir != [] ==> dir + "/" <= r
    ensures '\\' !in dir ==> '\\' !in r
  {
    if dir == [] then SlashSep(name) else dir + "/" + SlashSep(name)
  }

  /** A child's path is its directory's path and a slash (nothing at the
      root), then the entry name with its separators normalised. */
  lemma ChildPathShape(dir: string, name: string)
    ensures |ChildPath(dir, name)| == (if dir == [] then 0 else |dir| + 1) + |name|
    ensures dir != [] ==> ChildPath(dir, name)[..|dir| + 1] == dir + "/"
    ensures ChildPath(dir, name)[|ChildPath(dir, name)| - |name|..] == SlashSep(name)
  {
  }

  /** The print record of one file (src/index.ts:97). */
  function Record(path: string, text: string): string
  {
    path + ":\n" + text + "\n\n"
  }

  /** The keys of a node list, in order. */
  function Keys(ts: seq<Node>): (r: seq<string>)
    ensures |r| == |ts|
    ensures forall k :: 0 <= k < |ts| ==> r[k] == ts[k].key
  {
    if ts == [] then [] else [ts[0].key] + Keys(ts[1..])
  }

  /** The position of the first node with key `key`, or `|ts|` when there is none. */
  function Find(ts: seq<Node>, key: string): (i: nat)
    ensures i <= |ts|
    ensures i < |ts| ==> ts[i].key == key
    ensures forall j :: 0 <= j < i ==> ts[j].key != key
  {
    if ts == [] then 0 else if ts[0].key == key then 0 else 1 + Find(ts[1..], key)
  }

  /** Object property assignment `tree[n.key] = ...`: an existing key keeps its
      place and takes the new value; a new key goes at the end. */
  function Put(ts: seq<Node>, n: Node): (r: seq<Node>)
    ensures n.key !in Keys(ts) ==> r == ts + [n]
    ensures Keys(r) == if n.key in Keys(ts) then Keys(ts) else Keys(ts) + [n.key]
    ensures forall m :: m in r ==> m in ts || m == n
    ensures n in r
    ensures forall j :: 0 <= j < |ts| && ts[j].key != n.key ==> r[j] == ts[j]
  {
    var i := Find(ts, n.key);
    if i < |ts| then
      assert Keys(ts[i := n]) == Keys(ts);
      ts[i := n]
    else
      assert Keys(ts + [n]) == Keys(ts) + [n.key];
      ts + [n]
  }

  /** One iteration of the loop in `readDirectory`, for entry `e` of the
      directory `dir` (src/index.ts:80-104). */
  function Visit(e: Entry, dir: string, cfg: Config, acc: Walked): (r: Walked)
    decreases e, 2
  {
    var path := ChildPath(dir, e.name);
    var ignored := Ignored(path, cfg);
    match e
    case Dir(_, listing) =>
      if ignored then acc
      else
        var sub := ReadDirectory(listing, path, cfg, acc.projectPrint);
        if |sub.tree| > 0 then Walked(Put(acc.tree, Branch(path, sub.tree)), sub.projectPrint)
        else Walked(acc.tree, sub.projectPrint)
    case File(_, content) =>
      if !ignored && ShouldProcess(path, cfg) && content.Readable? then
        Walked(Put(acc.tree, Leaf(path)), acc.projectPrint + Record(path, content.text))
      else acc
    case Other(_) => acc
  }

  /** The loop over a directory's entries, in listing order. */
  function ReadEntries(es: seq<Entry>, dir: string, cfg: Config, acc: Walked): (r: Walked)
    decreases es, 1
  {
    if es == [] then acc else ReadEntries(es[1..], dir, cfg, Visit(es[0], dir, cfg, acc))
  }

  /** `readDirectory` on a fresh subtree, with the print text so far; a listing
      error leaves both unchanged (src/index.ts:106-109). */
  function ReadDirectory(l: Listing, dir: string, cfg: Config, projectPrint: string): (r: Walked)
    decreases l, 0
  {
    match l
    case Unlistable => Walked([], projectPrint)
    case Listed(es) => ReadEntries(es, dir, cfg, Walked([], projectPrint))
  }

  /** The whole traversal from the root directory, starting from an empty tree
      and an empty print (src/index.ts:7-8, 133). */
  function Walk(root: Listing, cfg: Config): Walked
  {
    ReadDirectory(root, "", cfg, "")
  }

  /** A file reachable by listing directories from the root, with the relative
      paths of the directories above it, outermost first. */
  datatype Found = Found(path: string, above: seq<string>, content: Content)

  /** Every file below a listing, in listing order and depth first, whatever
      the patterns say: the reference the walk's print is measured against. */
  function FilesIn(l: Listing, dir: string, above: seq<string>): (r: seq<Found>)
    ensures forall f :: f in r ==> above <= f.above
    decreases l, 0
  {
    match l
    case Unlistable => []
    case Listed(es) => FilesAmong(es, dir, above)
  }

  function FilesAmong(es: seq<Entry>, dir: string, above: seq<string>): (r: seq<Found>)
    ensures forall f :: f in r ==> above <= f.above
    decreases es, 1
  {
    if es == [] then [] else FilesOf(es[0], dir, above) + FilesAmong(es[1..], dir, above)
  }

  function FilesOf(e: Entry, dir: string, above: seq<string>): (r: seq<Found>)
    ensures forall f :: f in r ==> above <= f.above
    decreases e, 2
  {
    var path := ChildPath(dir, e.name);
    match e
    case File(_, content) => [Found(path, above, content)]
    case Dir(_, listing) =>
      var r := FilesIn(listing, path, above + [path]);
      assert forall f :: f in r ==> above <= above + [path] <= f.above;
      r
    case Other(_) => []
  }

  /** A file is printed iff it was read, no directory above it is ignored, it
      is not ignored itself and `shouldProcess` accepts it (src/index.ts:84, 93-97). */
  predicate Printed(f: Found, cfg: Config)
  {
    && f.content.Readable?
    && (forall k :: 0 <= k < |f.above| ==> !Ignored(f.above[k], cfg))
    && !Ignored(f.path, cfg)
    && ShouldProcess(f.path, cfg)
  }

  /** The files of `fs` the walk prints, in order. */
  function PrintedFiles(fs: seq<Found>, cfg: Config): (r: seq<Found>)
    ensures |r| <= |fs|
    ensures forall f :: f in r <==> f in fs && Printed(f, cfg)
  {
    if fs == [] then []
    else (if Printed(fs[0], cfg) then [fs[0]] else []) + PrintedFiles(fs[1..], cfg)
  }

  lemma {:induction false} PrintedFilesConcat(a: seq<Found>, b: seq<Found>, cfg: Config)
    ensures PrintedFiles(a + b, cfg) == PrintedFiles(a, cfg) + PrintedFiles(b, cfg)
  {
    if a == [] {
      assert a + b == b;
    } else {
      assert (a + b)[0] == a[0];
      assert (a + b)[1..] == a[1..] + b;
      PrintedFilesConcat(a[1..], b, cfg);
    }
  }

  /** The print records of read files, concatenated in order. */
  function Records(fs: seq<Found>): string
    requires forall f :: f in fs ==> f.content.Readable?
  {
    if fs == [] then [] else Record(fs[0].path, fs[0].content.text) + Records(fs[1..])
  }

  lemma {:induction false} RecordsConcat(a: seq<Found>, b: seq<Found>)
    requires forall f :: f in a + b ==> f.content.Readable?
    ensures Records(a + b) == Records(a) + Records(b)
  {
    if a == [] {
      assert a + b == b;
    } else {
      assert (a + b)[0] == a[0];
      assert (a + b)[1..] == a[1..] + b;
      RecordsConcat(a[1..], b);
    }
  }

  /** The paths of `fs`, in order. */
  function Paths(fs: seq<Found>): (r: seq<string>)
    ensures |r| == |fs|
    ensures forall k :: 0 <= k < |fs| ==> r[k] == fs[k].path
  {
    if fs == [] then [] else [fs[0].path] + Paths(fs[1..])
  }

  lemma PathsConcat(a: seq<Found>, b: seq<Found>)
    ensures Paths(a + b) == Paths(a) + Paths(b)
  {
  }

  /** The print text the files `fs` contribute. */
  function PrintOf(fs: seq<Found>, cfg: Config): string
  {
    Records(PrintedFiles(fs, cfg))
  }

  lemma PrintOfConcat(a: seq<Found>, b: seq<Found>, cfg: Config)
    ensures PrintOf(a + b, cfg) == PrintOf(a, cfg) + PrintOf(b, cfg)
  {
    PrintedFilesConcat(a, b, cfg);
    RecordsConcat(PrintedFiles(a, cfg), PrintedFiles(b, cfg));
  }

  lemma AppendAssociates<T>(a: seq<T>, b: seq<T>, c: seq<T>)
    ensures (a + b) + c == a + (b + c)
  {
  }

  /** Files below an ignored directory print nothing. */
  lemma {:induction false} PrintedFilesSilenced(fs: seq<Found>, cfg: Config, d: string)
    requires Ignored(d, cfg)
    requires forall f :: f in fs ==> d in f.above
    ensures PrintedFiles(fs, cfg) == []
  {
    if fs != [] {
      assert fs[0] in fs;
      var k :| 0 <= k < |fs[0].above| && fs[0].above[k] == d;
      assert !Printed(fs[0], cfg);
      PrintedFilesSilenced(fs[1..], cfg, d);
    }
  }

  lemma {:induction false} ReadDirectoryPrint(l: Listing, dir: string, cfg: Config, p: string, above: seq<string>)
    requires forall k :: 0 <= k < |above| ==> !Ignored(above[k], cfg)
    ensures ReadDirectory(l, dir, cfg, p).projectPrint == p + PrintOf(FilesIn(l, dir, above), cfg)
    decreases l, 0
  {
    match l
    case Unlistable =>
    case Listed(es) => ReadEntriesPrint(es, dir, cfg, Walked([], p), above);
  }

  lemma {:induction false} ReadEntriesPrint(es: seq<Entry>, dir: string, cfg: Config, acc: Walked, above: seq<string>)
    requires forall k :: 0 <= k < |above| ==> !Ignored(above[k], cfg)
    ensures ReadEntries(es, dir, cfg, acc).projectPrint == acc.projectPrint + PrintOf(FilesAmong(es, dir, above), cfg)
    decreases es, 1
  {
    if es == [] {
      assert acc.projectPrint + [] == acc.projectPrint;
    } else {
      var next := Visit(es[0], dir, cfg, acc);
      VisitPrint(es[0], dir, cfg, acc, above);
      ReadEntriesPrint(es[1..], dir, cfg, next, above);
      EntriesStep(es, dir, cfg, acc, above);
    }
  }

  /** One step of the loop over entries, on both sides of the print theorem. */
  lemma EntriesStep(es: seq<Entry>, dir: string, cfg: Config, acc: Walked, above: seq<string>)
    requires es != []
    requires Visit(es[0], dir, cfg, acc).projectPrint == acc.projectPrint + PrintOf(FilesOf(es[0], dir, above), cfg)
    requires ReadEntries(es[1..], dir, cfg, Visit(es[0], dir, cfg, acc)).projectPrint
          == Visit(es[0], dir, cfg, acc).projectPrint + PrintOf(FilesAmong(es[1..], dir, above), cfg)
    ensures ReadEntries(es, dir, cfg, acc).projectPrint == acc.projectPrint + PrintOf(FilesAmong(es, dir, above), cfg)
  {
    var here := FilesOf(es[0], dir, above);
    var later := FilesAmong(es[1..], dir, above);
    assert FilesAmong(es, dir, above) == here + later;
    assert ReadEntries(es, dir, cfg, acc) == ReadEntries(es[1..], dir, cfg, Visit(es[0], dir, cfg, acc));
    PrintOfConcat(here, later, cfg);
    AppendAssociates(acc.projectPrint, PrintOf(here, cfg), PrintOf(later, cfg));
  }

  lemma {:induction false} VisitPrint(e: Entry, dir: string, cfg: Config, acc: Walked, above: seq<string>)
    requires forall k :: 0 <= k < |above| ==> !Ignored(above[k], cfg)
    ensures Visit(e, dir, cfg, acc).projectPrint == acc.projectPrint + PrintOf(FilesOf(e, dir, above), cfg)
    decreases e, 2
  {
    var path := ChildPath(dir, e.name);
    match e
    case File(_, content) =>
      var f := Found(path, above, content);
      assert PrintedFiles([f], cfg) == if Printed(f, cfg) then [f] else [];
      if Printed(f, cfg) {
        assert Records([f]) == Record(path, content.text);
      } else {
        assert acc.projectPrint + [] == acc.projectPrint;
      }
    case Dir(_, listing) =>
      var inner := FilesIn(listing, path, above + [path]);
      if Ignored(path, cfg) {
        forall f | f in inner
          ensures path in f.above
        {
          assert (above + [path])[|above|] == f.above[|above|];
        }
        PrintedFilesSilenced(inner, cfg, path);
      } else {
        ReadDirectoryPrint(listing, path, cfg, acc.projectPrint, above + [path]);
      }
    case Other(_) =>
  }

  /** The print of a whole walk is the record of every reachable file that was
      read, lies under no ignored directory, is not ignored and passes
      `shouldProcess`, in traversal order; files that fail to read and
      directories that fail to list add nothing (src/index.ts:74-110). */
  lemma WalkPrint(root: Listing, cfg: Config)
    ensures Walk(root, cfg).projectPrint == PrintOf(FilesIn(root, "", []), cfg)
  {
    var above: seq<string> := [];
    ReadDirectoryPrint(root, "", cfg, "", above);
    assert "" + PrintOf(FilesIn(root, "", above), cfg) == PrintOf(FilesIn(root, "", above), cfg);
  }

  /** A node the walk can produce inside directory `dir`: its key is a path
      below `dir`, it is not ignored, a file also passes `shouldProcess`
      (so ignore beats include), and a directory has at least one child, each
      of them valid inside it (src/index.ts:82-93). */
  predicate Valid(n: Node, dir: string, cfg: Config)
    decreases n
  {
    && (dir != [] ==> dir + "/" <= n.key)
    && !Ignored(n.key, cfg)
    && match n
       case Leaf(k) => ShouldProcess(k, cfg)
       case Branch(k, cs) => |cs| > 0 && forall c :: c in cs ==> Valid(c, k, cfg)
  }

  predicate AllValid(ts: seq<Node>, dir: string, cfg: Config)
  {
    forall n :: n in ts ==> Valid(n, dir, cfg)
  }

  lemma {:induction false} ReadDirectoryValid(l: Listing, dir: string, cfg: Config, p: string)
    ensures AllValid(ReadDirectory(l, dir, cfg, p).tree, dir, cfg)
    decreases l, 0
  {
    match l
    case Unlistable =>
    case Listed(es) => ReadEntriesValid(es, dir, cfg, Walked([], p));
  }

  lemma {:induction false} ReadEntriesValid(es: seq<Entry>, dir: string, cfg: Config, acc: Walked)
    requires AllValid(acc.tree, dir, cfg)
    ensures AllValid(ReadEntries(es, dir, cfg, acc).tree, dir, cfg)
    decreases es, 1
  {
    if es != [] {
      VisitValid(es[0], dir, cfg, acc);
      ReadEntriesValid(es[1..], dir, cfg, Visit(es[0], dir, cfg, acc));
    }
  }

  lemma {:induction false} VisitValid(e: Entry, dir: string, cfg: Config, acc: Walked)
    requires AllValid(acc.tree, dir, cfg)
    ensures AllValid(Visit(e, dir, cfg, acc).tree, dir, cfg)
    decreases e, 2
  {
    var path := ChildPath(dir, e.name);
    match e
    case Dir(_, listing) =>
      if !Ignored(path, cfg) {
        ReadDirectoryValid(listing, path, cfg, acc.projectPrint);
      }
    case File(_, _) =>
    case Other(_) =>
  }

  /** Every node of a walk's tree, at every depth, is `Valid`: no directory
      without children, no ignored key, no file that `shouldProcess` rejects,
      and every key lies below its parent's key. */
  lemma WalkValid(root: Listing, cfg: Config)
    ensures AllValid(Walk(root, cfg).tree, "", cfg)
  {
    ReadDirectoryValid(root, "", cfg, "");
  }

  /** The keys of the file nodes of a tree, in pre-order. */
  function Leaves(ts: seq<Node>): seq<string>
    decreases ts
  {
    if ts == [] then []
    else
      (match ts[0]
       case Leaf(k) => [k]
       case Branch(_, cs) => Leaves(cs))
      + Leaves(ts[1..])
  }

  lemma {:induction false} LeavesConcat(a: seq<Node>, b: seq<Node>)
    ensures Leaves(a + b) == Leaves(a) + Leaves(b)
  {
    if a == [] {
      assert a + b == b;
    } else {
      assert (a + b)[0] == a[0];
      assert (a + b)[1..] == a[1..] + b;
      LeavesConcat(a[1..], b);
      AppendAssociates(Leaves([a[0]]), Leaves(a[1..]), Leaves(b));
    }
  }

  /** Entry names as a POSIX listing reports them: distinct within a directory
      and free of '/', in every directory below. */
  predicate WellNamed(l: Listing)
    decreases l, 1
  {
    match l
    case Unlistable => true
    case Listed(es) => WellNamedEntries(es)
  }

  predicate WellNamedEntries(es: seq<Entry>)
    decreases es, 0
  {
    && (forall i, j :: 0 <= i < j < |es| ==> es[i].name != es[j].name)
    && (forall i :: 0 <= i < |es| ==> '/' !in es[i].name)
    && (forall i :: 0 <= i < |es| ==> es[i].Dir? ==> WellNamed(es[i].listing))
  }

  /** Distinct slash-free names give distinct child paths. */
  lemma ChildPathInjective(dir: string, n1: string, n2: string)
    requires '/' !in n1 && '/' !in n2 && n1 != n2
    ensures ChildPath(dir, n1) != ChildPath(dir, n2)
  {
    if |n1| == |n2| {
      var i :| 0 <= i < |n1| && n1[i] != n2[i];
      assert SlashSep(n1)[i] != SlashSep(n2)[i];
    }
    if dir != [] {
      assert ChildPath(dir, n1)[|dir| + 1..] == SlashSep(n1);
      assert ChildPath(dir, n2)[|dir| + 1..] == SlashSep(n2);
    }
  }

  lemma {:induction false} ReadDirectoryLeaves(l: Listing, dir: string, cfg: Config, p: string, above: seq<string>)
    requires WellNamed(l)
    requires forall k :: 0 <= k < |above| ==> !Ignored(above[k], cfg)
    ensures Leaves(ReadDirectory(l, dir, cfg, p).tree) == Paths(PrintedFiles(FilesIn(l, dir, above), cfg))
    decreases l, 0
  {
    match l
    case Unlistable =>
    case Listed(es) => ReadEntriesLeaves(es, dir, cfg, Walked([], p), above);
  }

  lemma {:induction false} ReadEntriesLeaves(es: seq<Entry>, dir: string, cfg: Config, acc: Walked, above: seq<string>)
    requires WellNamedEntries(es)
    requires forall k :: 0 <= k < |above| ==> !Ignored(above[k], cfg)
    requires forall k, j :: 0 <= k < |acc.tree| && 0 <= j < |es| ==> acc.tree[k].key != ChildPath(dir, es[j].name)
    ensures Leaves(ReadEntries(es, dir, cfg, acc).tree) == Leaves(acc.tree) + Paths(PrintedFiles(FilesAmong(es, dir, above), cfg))
    decreases es, 1
  {
    if es == [] {
      assert Leaves(acc.tree) + [] == Leaves(acc.tree);
    } else {
      var next := Visit(es[0], dir, cfg, acc);
      VisitLeaves(es[0], dir, cfg, acc, above);
      KeysStayFresh(es, dir, acc.tree, next.tree);
      ReadEntriesLeaves(es[1..], dir, cfg, next, above);
      EntriesLeavesStep(es, dir, cfg, acc, above);
    }
  }

  /** After visiting the first entry, no key of the tree is the path of a
      later entry: the names are distinct and slash-free. */
  lemma KeysStayFresh(es: seq<Entry>, dir: string, before: seq<Node>, after: seq<Node>)
    requires es != []
    requires forall i, j :: 0 <= i < j < |es| ==> es[i].name != es[j].name
    requires forall i :: 0 <= i < |es| ==> '/' !in es[i].name
    requires forall k, j :: 0 <= k < |before| && 0 <= j < |es| ==> before[k].key != ChildPath(dir, es[j].name)
    requires forall x :: x in Keys(after) ==> x in Keys(before) || x == ChildPath(dir, es[0].name)
    ensures forall k, j :: 0 <= k < |after| && 0 <= j < |es| - 1 ==> after[k].key != ChildPath(dir, es[1..][j].name)
  {
    forall k, j | 0 <= k < |after| && 0 <= j < |es| - 1
      ensures after[k].key != ChildPath(dir, es[1..][j].name)
    {
      assert es[1..][j] == es[j + 1];
      assert Keys(after)[k] == after[k].key;
      KeyIsFresh(after[k].key, before, dir, es[0].name, es[j + 1].name);
    }
  }

  /** A key that is an old key or the first entry's path is not the path of a
      differently named, later entry. */
  lemma KeyIsFresh(key: string, before: seq<Node>, dir: string, first: string, later: string)
    requires key in Keys(before) || key == ChildPath(dir, first)
    requires forall k :: 0 <= k < |before| ==> before[k].key != ChildPath(dir, later)
    requires '/' !in first && '/' !in later && first != later
    ensures key != ChildPath(dir, later)
  {
    if key in Keys(before) {
      var i :| 0 <= i < |before| && Keys(before)[i] == key;
    } else {
      ChildPathInjective(dir, first, later);
    }
  }

  lemma EntriesLeavesStep(es: seq<Entry>, dir: string, cfg: Config, acc: Walked, above: seq<string>)
    requires es != []
    requires Leaves(Visit(es[0], dir, cfg, acc).tree) == Leaves(acc.tree) + Paths(PrintedFiles(FilesOf(es[0], dir, above), cfg))
    requires Leaves(ReadEntries(es[1..], dir, cfg, Visit(es[0], dir, cfg, acc)).tree)
          == Leaves(Visit(es[0], dir, cfg, acc).tree) + Paths(PrintedFiles(FilesAmong(es[1..], dir, above), cfg))
    ensures Leaves(ReadEntries(es, dir, cfg, acc).tree) == Leaves(acc.tree) + Paths(PrintedFiles(FilesAmong(es, dir, above), cfg))
  {
    var here := FilesOf(es[0], dir, above);
    var later := FilesAmong(es[1..], dir, above);
    assert FilesAmong(es, dir, above) == here + later;
    assert ReadEntries(es, dir, cfg, acc) == ReadEntries(es[1..], dir, cfg, Visit(es[0], dir, cfg, acc));
    PrintedFilesConcat(here, later, cfg);
    PathsConcat(PrintedFiles(here, cfg), PrintedFiles(later, cfg));
    AppendAssociates(Leaves(acc.tree), Paths(PrintedFiles(here, cfg)), Paths(PrintedFiles(later, cfg)));
  }

  lemma {:induction false} VisitLeaves(e: Entry, dir: string, cfg: Config, acc: Walked, above: seq<string>)
    requires e.Dir? ==> WellNamed(e.listing)
    requires forall k :: 0 <= k < |above| ==> !Ignored(above[k], cfg)
    requires forall k :: 0 <= k < |acc.tree| ==> acc.tree[k].key != ChildPath(dir, e.name)
    ensures Leaves(Visit(e, dir, cfg, acc).tree) == Leaves(acc.tree) + Paths(PrintedFiles(FilesOf(e, dir, above), cfg))
    ensures forall x :: x in Keys(Visit(e, dir, cfg, acc).tree) ==> x in Keys(acc.tree) || x == ChildPath(dir, e.name)
    decreases e, 2
  {
    match e
    case File(_, _) => FileLeaves(e, dir, cfg, acc, above);
    case Dir(_, _) =>
      if Ignored(ChildPath(dir, e.name), cfg) {
        IgnoredDirLeaves(e, dir, cfg, acc, above);
      } else {
        DirLeaves(e, dir, cfg, acc, above);
      }
    case Other(_) =>
      assert Leaves(acc.tree) + [] == Leaves(acc.tree);
  }

  lemma FileLeaves(e: Entry, dir: string, cfg: Config, acc: Walked, above: seq<string>)
    requires e.File?
    requires forall k :: 0 <= k < |above| ==> !Ignored(above[k], cfg)
    requires forall k :: 0 <= k < |acc.tree| ==> acc.tree[k].key != ChildPath(dir, e.name)
    ensures Leaves(Visit(e, dir, cfg, acc).tree) == Leaves(acc.tree) + Paths(PrintedFiles(FilesOf(e, dir, above), cfg))
    ensures forall x :: x in Keys(Visit(e, dir, cfg, acc).tree) ==> x in Keys(acc.tree) || x == ChildPath(dir, e.name)
  {
    var path := ChildPath(dir, e.name);
    assert path !in Keys(acc.tree);
    var f := Found(path, above, e.content);
    assert FilesOf(e, dir, above) == [f];
    assert PrintedFiles([f], cfg) == if Printed(f, cfg) then [f] else [];
    if Printed(f, cfg) {
      assert Visit(e, dir, cfg, acc).tree == acc.tree + [Leaf(path)];
      LeavesConcat(acc.tree, [Leaf(path)]);
    } else {
      assert Visit(e, dir, cfg, acc) == acc;
      assert Leaves(acc.tree) + [] == Leaves(acc.tree);
    }
  }

  lemma IgnoredDirLeaves(e: Entry, dir: string, cfg: Config, acc: Walked, above: seq<string>)
    requires e.Dir? && Ignored(ChildPath(dir, e.name), cfg)
    ensures Leaves(Visit(e, dir, cfg, acc).tree) == Leaves(acc.tree) + Paths(PrintedFiles(FilesOf(e, dir, above), cfg))
    ensures Visit(e, dir, cfg, acc) == acc
  {
    var path := ChildPath(dir, e.name);
    var inner := FilesIn(e.listing, path, above + [path]);
    assert FilesOf(e, dir, above) == inner;
    forall f | f in inner
      ensures path in f.above
    {
      assert (above + [path])[|above|] == f.above[|above|];
    }
    PrintedFilesSilenced(inner, cfg, path);
    assert Leaves(acc.tree) + [] == Leaves(acc.tree);
  }

  lemma {:induction false} DirLeaves(e: Entry, dir: string, cfg: Config, acc: Walked, above: seq<string>)
    requires e.Dir? && WellNamed(e.listing) && !Ignored(ChildPath(dir, e.name), cfg)
    requires forall k :: 0 <= k < |above| ==> !Ignored(above[k], cfg)
    requires forall k :: 0 <= k < |acc.tree| ==> acc.tree[k].key != ChildPath(dir, e.name)
    ensures Leaves(Visit(e, dir, cfg, acc).tree) == Leaves(acc.tree) + Paths(PrintedFiles(FilesOf(e, dir, above), cfg))
    ensures forall x :: x in Keys(Visit(e, dir, cfg, acc).tree) ==> x in Keys(acc.tree) || x == ChildPath(dir, e.name)
    decreases e, 1
  {
    var path := ChildPath(dir, e.name);
    assert path !in Keys(acc.tree);
    var above' := above + [path];
    assert forall k :: 0 <= k < |above'| ==> !Ignored(above'[k], cfg);
    var sub := ReadDirectory(e.listing, path, cfg, acc.projectPrint);
    assert FilesOf(e, dir, above) == FilesIn(e.listing, path, above');
    ReadDirectoryLeaves(e.listing, path, cfg, acc.projectPrint, above');
    if |sub.tree| > 0 {
      assert Visit(e, dir, cfg, acc).tree == Put(acc.tree, Branch(path, sub.tree));
      AppendBranchLeaves(acc.tree, path, sub.tree);
    } else {
      assert Visit(e, dir, cfg, acc).tree == acc.tree;
      assert Leaves(acc.tree) + [] == Leaves(acc.tree);
    }
  }

  /** A new key's subtree goes at the end, and its file keys after the others. */
  lemma AppendBranchLeaves(ts: seq<Node>, path: string, sub: seq<Node>)
    requires path !in Keys(ts)
    ensures Leaves(Put(ts, Branch(path, sub))) == Leaves(ts) + Leaves(sub)
  {
    assert Put(ts, Branch(path, sub)) == ts + [Branch(path, sub)];
    LeavesConcat(ts, [Branch(path, sub)]);
    assert [Branch(path, sub)][1..] == [];
    assert Leaves([Branch(path, sub)]) == Leaves(sub) + Leaves([]);
  }

  /** When every directory lists distinct names without '/', the file keys of
      the tree, in pre-order, are exactly the paths that were printed: a file
      that fails to read, or is ignored, or lies under an ignored directory, is
      missing from both (src/index.ts:84-98). */
  lemma WalkLeaves(root: Listing, cfg: Config)
    requires WellNamed(root)
    ensures Leaves(Walk(root, cfg).tree) == Paths(PrintedFiles(FilesIn(root, "", []), cfg))
  {
    ReadDirectoryLeaves(root, "", cfg, "", []);
  }

  /** Every node of a tree, at every depth, in pre-order. */
  function Nodes(ts: seq<Node>): (r: seq<Node>)
    ensures forall n :: n in ts ==> n in r
    decreases ts
  {
    if ts == [] then []
    else
      var r := [ts[0]] + (if ts[0].Branch? then Nodes(ts[0].children) else []) + Nodes(ts[1..]);
      assert forall n :: n in ts ==> n == ts[0] || n in ts[1..];
      r
  }

  /** Every child of a directory node in the flattening is itself in the
      flattening. */
  lemma {:induction false} NodesClosed(ts: seq<Node>)
    ensures forall n, c :: n in Nodes(ts) && n.Branch? && c in n.children ==> c in Nodes(ts)
    decreases ts
  {
    if ts != [] {
      var below := if ts[0].Branch? then Nodes(ts[0].children) else [];
      assert Nodes(ts) == [ts[0]] + below + Nodes(ts[1..]);
      if ts[0].Branch? {
        NodesClosed(ts[0].children);
      }
      NodesClosed(ts[1..]);
    }
  }

  /** What validity says about one node, without its subtree: the node is not
      ignored, a file passes `shouldProcess`, and a directory has children,
      each keyed below it. */
  predicate Admitted(n: Node, cfg: Config)
  {
    && !Ignored(n.key, cfg)
    && (n.Leaf? ==> ShouldProcess(n.key, cfg))
    && (n.Branch? ==> |n.children| > 0 && (n.key != [] ==> forall c :: c in n.children ==> n.key + "/" <= c.key))
  }

  lemma ValidAdmitted(n: Node, dir: string, cfg: Config)
    requires Valid(n, dir, cfg)
    ensures Admitted(n, cfg)
  {
    if n.Branch? && n.key != [] {
      forall c | c in n.children
        ensures n.key + "/" <= c.key
      {
        assert Valid(c, n.key, cfg);
      }
    }
  }

  /** Every node at every depth of a valid tree is admitted. */
  lemma {:induction false} ValidEverywhere(ts: seq<Node>, dir: string, cfg: Config)
    requires AllValid(ts, dir, cfg)
    ensures forall n :: n in Nodes(ts) ==> Admitted(n, cfg)
    decreases ts
  {
    if ts == [] {
      assert Nodes(ts) == [];
    } else {
      var head := ts[0];
      assert head in ts;
      var below := if head.Branch? then Nodes(head.children) else [];
      assert Nodes(ts) == [head] + below + Nodes(ts[1..]);
      ValidAdmitted(head, dir, cfg);
      if head.Branch? {
        ValidEverywhere(head.children, head.key, cfg);
      }
      ValidEverywhere(ts[1..], dir, cfg);
    }
  }

  /** At every depth of a walk's tree: no directory without children, no key
      the ignore list matches, no file `shouldProcess` rejects (so an include
      pattern never rescues an ignored file), and every child keyed below its
      parent (src/index.ts:82-93). */
  lemma WalkAdmitted(root: Listing, cfg: Config)
    ensures forall n :: n in Nodes(Walk(root, cfg).tree) ==> Admitted(n, cfg)
  {
    WalkValid(root, cfg);
    ValidEverywhere(Walk(root, cfg).tree, "", cfg);
  }

  /** A directory reachable by listing directories from the root, with the
      relative paths of the directories above it, outermost first, and its
      own listing. */
  datatype Reached = Reached(path: string, above: seq<string>, listing: Listing)

  /** Every directory below a listing, each before the directories inside it,
      in listing order and whatever the patterns say: the reference the walk's
      directory nodes are measured against. */
  function DirsIn(l: Listing, dir: string, above: seq<string>): (r: seq<Reached>)
    ensures forall d :: d in r ==> above <= d.above
    decreases l, 0
  {
    match l
    case Unlistable => []
    case Listed(es) => DirsAmong(es, dir, above)
  }

  function DirsAmong(es: seq<Entry>, dir: string, above: seq<string>): (r: seq<Reached>)
    ensures forall d :: d in r ==> above <= d.above
    decreases es, 1
  {
    if es == [] then [] else DirsOf(es[0], dir, above) + DirsAmong(es[1..], dir, above)
  }

  function DirsOf(e: Entry, dir: string, above: seq<string>): (r: seq<Reached>)
    ensures forall d :: d in r ==> above <= d.above
    decreases e, 2
  {
    var path := ChildPath(dir, e.name);
    match e
    case Dir(_, listing) =>
      var inner := DirsIn(listing, path, above + [path]);
      assert forall d :: d in inner ==> above <= above + [path] <= d.above;
      [Reached(path, above, listing)] + inner
    case File(_, _) => []
    case Other(_) => []
  }

  /** The files below a reached directory, at every depth. */
  function Below(d: Reached): seq<Found>
  {
    FilesIn(d.listing, d.path, d.above + [d.path])
  }

  /** The tree the walk builds from a reached directory's own listing. */
  function SubTree(d: Reached, cfg: Config): seq<Node>
  {
    ReadDirectory(d.listing, d.path, cfg, "").tree
  }

  /** The walk keeps a directory iff no directory above it is ignored, it is
      not ignored itself, and at least one file below it is printed
      (src/index.ts:82-89). */
  predicate Shown(d: Reached, cfg: Config)
  {
    && (forall k :: 0 <= k < |d.above| ==> !Ignored(d.above[k], cfg))
    && !Ignored(d.path, cfg)
    && PrintedFiles(Below(d), cfg) != []
  }

  /** The directory node due for `d`: one keyed by its path and holding the
      tree of its own listing when it is shown, none otherwise. */
  function BranchFor(d: Reached, cfg: Config): (r: seq<Node>)
    ensures |r| <= 1
  {
    if Shown(d, cfg) then [Branch(d.path, SubTree(d, cfg))] else []
  }

  /** The directory nodes due for `ds`, in order. */
  function ShownBranches(ds: seq<Reached>, cfg: Config): seq<Node>
  {
    if ds == [] then [] else BranchFor(ds[0], cfg) + ShownBranches(ds[1..], cfg)
  }

  /** A node is due for `ds` iff it is the node of a shown directory of `ds`. */
  lemma {:induction false} ShownBranchesMembers(ds: seq<Reached>, cfg: Config)
    ensures forall n :: n in ShownBranches(ds, cfg) <==> exists d :: d in ds && Shown(d, cfg) && n == Branch(d.path, SubTree(d, cfg))
  {
    if ds != [] {
      ShownBranchesMembers(ds[1..], cfg);
      assert forall d :: d in ds <==> d == ds[0] || d in ds[1..];
    }
  }

  lemma {:induction false} ShownBranchesConcat(a: seq<Reached>, b: seq<Reached>, cfg: Config)
    ensures ShownBranches(a + b, cfg) == ShownBranches(a, cfg) + ShownBranches(b, cfg)
  {
    if a == [] {
      assert a + b == b;
    } else {
      var head := BranchFor(a[0], cfg);
      assert (a + b)[0] == a[0];
      assert (a + b)[1..] == a[1..] + b;
      assert ShownBranches(a + b, cfg) == head + ShownBranches(a[1..] + b, cfg);
      ShownBranchesConcat(a[1..], b, cfg);
      AppendAssociates(head, ShownBranches(a[1..], cfg), ShownBranches(b, cfg));
    }
  }

  /** Directories below an ignored directory are not shown. */
  lemma {:induction false} ShownBranchesSilenced(ds: seq<Reached>, cfg: Config, p: string)
    requires Ignored(p, cfg)
    requires forall d :: d in ds ==> p in d.above
    ensures ShownBranches(ds, cfg) == []
  {
    if ds != [] {
      assert ds[0] in ds;
      var k :| 0 <= k < |ds[0].above| && ds[0].above[k] == p;
      assert !Shown(ds[0], cfg);
      ShownBranchesSilenced(ds[1..], cfg, p);
    }
  }

  /** The directory nodes of a tree, at every depth, in pre-order. */
  function Branches(ts: seq<Node>): seq<Node>
    decreases ts
  {
    if ts == [] then []
    else
      (match ts[0]
       case Leaf(_) => []
       case Branch(_, cs) => [ts[0]] + Branches(cs))
      + Branches(ts[1..])
  }

  lemma {:induction false} BranchesConcat(a: seq<Node>, b: seq<Node>)
    ensures Branches(a + b) == Branches(a) + Branches(b)
  {
    if a == [] {
      assert a + b == b;
    } else {
      assert (a + b)[0] == a[0];
      assert (a + b)[1..] == a[1..] + b;
      BranchesConcat(a[1..], b);
    }
  }

  /** `Branches` lists exactly the directory nodes of the flattening. */
  lemma {:induction false} BranchesAreNodes(ts: seq<Node>)
    ensures forall n :: n in Branches(ts) <==> n in Nodes(ts) && n.Branch?
    decreases ts
  {
    if ts != [] {
      var below := if ts[0].Branch? then Nodes(ts[0].children) else [];
      assert Nodes(ts) == [ts[0]] + below + Nodes(ts[1..]);
      if ts[0].Branch? {
        BranchesAreNodes(ts[0].children);
        assert Branches(ts) == [ts[0]] + Branches(ts[0].children) + Branches(ts[1..]);
      } else {
        assert Branches(ts) == Branches(ts[1..]);
      }
      BranchesAreNodes(ts[1..]);
    }
  }

  /** The print accumulated so far has no effect on the tree. */
  lemma {:induction false} ReadDirectoryTree(l: Listing, dir: string, cfg: Config, p: string, q: string)
    ensures ReadDirectory(l, dir, cfg, p).tree == ReadDirectory(l, dir, cfg, q).tree
    decreases l, 0
  {
    match l
    case Unlistable =>
    case Listed(es) => ReadEntriesTree(es, dir, cfg, [], p, q);
  }

  lemma {:induction false} ReadEntriesTree(es: seq<Entry>, dir: string, cfg: Config, t: seq<Node>, p: string, q: string)
    ensures ReadEntries(es, dir, cfg, Walked(t, p)).tree == ReadEntries(es, dir, cfg, Walked(t, q)).tree
    decreases es, 1
  {
    if es != [] {
      var a := Visit(es[0], dir, cfg, Walked(t, p));
      var b := Visit(es[0], dir, cfg, Walked(t, q));
      VisitTree(es[0], dir, cfg, t, p, q);
      assert a == Walked(a.tree, a.projectPrint) && b == Walked(a.tree, b.projectPrint);
      ReadEntriesTree(es[1..], dir, cfg, a.tree, a.projectPrint, b.projectPrint);
    }
  }

  lemma {:induction false} VisitTree(e: Entry, dir: string, cfg: Config, t: seq<Node>, p: string, q: string)
    ensures Visit(e, dir, cfg, Walked(t, p)).tree == Visit(e, dir, cfg, Walked(t, q)).tree
    decreases e, 2
  {
    match e
    case Dir(_, listing) =>
      ReadDirectoryTree(listing, ChildPath(dir, e.name), cfg, p, q);
    case File(_, _) =>
    case Other(_) =>
  }

  /** A valid tree with a node has a file node. */
  lemma {:induction false} ValidHasLeaves(ts: seq<Node>, dir: string, cfg: Config)
    requires AllValid(ts, dir, cfg) && ts != []
    ensures Leaves(ts) != []
    decreases ts
  {
    assert ts[0] in ts;
    LeavesConcat([ts[0]], ts[1..]);
    assert [ts[0]] + ts[1..] == ts;
    match ts[0]
    case Leaf(k) =>
      assert Leaves([ts[0]]) == [k] + Leaves([]);
    case Branch(k, cs) =>
      assert cs[0] in cs;
      ValidHasLeaves(cs, k, cfg);
      assert Leaves([ts[0]]) == Leaves(cs) + Leaves([]);
  }

  lemma {:induction false} ReadDirectoryBranches(l: Listing, dir: string, cfg: Config, p: string, above: seq<string>)
    requires WellNamed(l)
    requires forall k :: 0 <= k < |above| ==> !Ignored(above[k], cfg)
    ensures Branches(ReadDirectory(l, dir, cfg, p).tree) == ShownBranches(DirsIn(l, dir, above), cfg)
    decreases l, 0
  {
    match l
    case Unlistable =>
    case Listed(es) => ReadEntriesBranches(es, dir, cfg, Walked([], p), above);
  }

  lemma {:induction false} ReadEntriesBranches(es: seq<Entry>, dir: string, cfg: Config, acc: Walked, above: seq<string>)
    requires WellNamedEntries(es)
    requires forall k :: 0 <= k < |above| ==> !Ignored(above[k], cfg)
    requires forall k, j :: 0 <= k < |acc.tree| && 0 <= j < |es| ==> acc.tree[k].key != ChildPath(dir, es[j].name)
    ensures Branches(ReadEntries(es, dir, cfg, acc).tree) == Branches(acc.tree) + ShownBranches(DirsAmong(es, dir, above), cfg)
    decreases es, 1
  {
    if es == [] {
      assert Branches(acc.tree) + [] == Branches(acc.tree);
    } else {
      var next := Visit(es[0], dir, cfg, acc);
      VisitBranches(es[0], dir, cfg, acc, above);
      VisitLeaves(es[0], dir, cfg, acc, above);
      KeysStayFresh(es, dir, acc.tree, next.tree);
      ReadEntriesBranches(es[1..], dir, cfg, next, above);
      EntriesBranchesStep(es, dir, cfg, acc, above);
    }
  }

  lemma EntriesBranchesStep(es: seq<Entry>, dir: string, cfg: Config, acc: Walked, above: seq<string>)
    requires es != []
    requires Branches(Visit(es[0], dir, cfg, acc).tree) == Branches(acc.tree) + ShownBranches(DirsOf(es[0], dir, above), cfg)
    requires Branches(ReadEntries(es[1..], dir, cfg, Visit(es[0], dir, cfg, acc)).tree)
          == Branches(Visit(es[0], dir, cfg, acc).tree) + ShownBranches(DirsAmong(es[1..], dir, above), cfg)
    ensures Branches(ReadEntries(es, dir, cfg, acc).tree) == Branches(acc.tree) + ShownBranches(DirsAmong(es, dir, above), cfg)
  {
    var here := DirsOf(es[0], dir, above);
    var later := DirsAmong(es[1..], dir, above);
    assert DirsAmong(es, dir, above) == here + later;
    assert ReadEntries(es, dir, cfg, acc) == ReadEntries(es[1..], dir, cfg, Visit(es[0], dir, cfg, acc));
    ShownBranchesConcat(here, later, cfg);
    AppendAssociates(Branches(acc.tree), ShownBranches(here, cfg), ShownBranches(later, cfg));
  }

  lemma {:induction false} VisitBranches(e: Entry, dir: string, cfg: Config, acc: Walked, above: seq<string>)
    requires e.Dir? ==> WellNamed(e.listing)
    requires forall k :: 0 <= k < |above| ==> !Ignored(above[k], cfg)
    requires forall k :: 0 <= k < |acc.tree| ==> acc.tree[k].key != ChildPath(dir, e.name)
    ensures Branches(Visit(e, dir, cfg, acc).tree) == Branches(acc.tree) + ShownBranches(DirsOf(e, dir, above), cfg)
    decreases e, 2
  {
    match e
    case File(_, _) => FileBranches(e, dir, cfg, acc, above);
    case Dir(_, _) =>
      if Ignored(ChildPath(dir, e.name), cfg) {
        IgnoredDirBranches(e, dir, cfg, acc, above);
      } else {
        DirBranches(e, dir, cfg, acc, above);
      }
    case Other(_) =>
      assert Branches(acc.tree) + [] == Branches(acc.tree);
  }

  lemma FileBranches(e: Entry, dir: string, cfg: Config, acc: Walked, above: seq<string>)
    requires e.File?
    requires forall k :: 0 <= k < |acc.tree| ==> acc.tree[k].key != ChildPath(dir, e.name)
    ensures Branches(Visit(e, dir, cfg, acc).tree) == Branches(acc.tree) + ShownBranches(DirsOf(e, dir, above), cfg)
  {
    var path := ChildPath(dir, e.name);
    assert path !in Keys(acc.tree);
    assert DirsOf(e, dir, above) == [];
    if Visit(e, dir, cfg, acc) != acc {
      assert Visit(e, dir, cfg, acc).tree == acc.tree + [Leaf(path)];
      BranchesConcat(acc.tree, [Leaf(path)]);
      assert Branches([Leaf(path)]) == Branches([]);
    }
    assert Branches(acc.tree) + [] == Branches(acc.tree);
  }

  lemma IgnoredDirBranches(e: Entry, dir: string, cfg: Config, acc: Walked, above: seq<string>)
    requires e.Dir? && Ignored(ChildPath(dir, e.name), cfg)
    ensures Branches(Visit(e, dir, cfg, acc).tree) == Branches(acc.tree) + ShownBranches(DirsOf(e, dir, above), cfg)
  {
    var path := ChildPath(dir, e.name);
    var first := Reached(path, above, e.listing);
    var inner := DirsIn(e.listing, path, above + [path]);
    assert DirsOf(e, dir, above) == [first] + inner;
    forall d | d in inner
      ensures path in d.above
    {
      assert (above + [path])[|above|] == d.above[|above|];
    }
    ShownBranchesSilenced(inner, cfg, path);
    assert !Shown(first, cfg);
    ShownBranchesConcat([first], inner, cfg);
    assert Branches(acc.tree) + [] == Branches(acc.tree);
  }

  lemma {:induction false} DirBranches(e: Entry, dir: string, cfg: Config, acc: Walked, above: seq<string>)
    requires e.Dir? && WellNamed(e.listing) && !Ignored(ChildPath(dir, e.name), cfg)
    requires forall k :: 0 <= k < |above| ==> !Ignored(above[k], cfg)
    requires forall k :: 0 <= k < |acc.tree| ==> acc.tree[k].key != ChildPath(dir, e.name)
    ensures Branches(Visit(e, dir, cfg, acc).tree) == Branches(acc.tree) + ShownBranches(DirsOf(e, dir, above), cfg)
    decreases e, 1
  {
    var path := ChildPath(dir, e.name);
    assert path !in Keys(acc.tree);
    var above' := above + [path];
    assert forall k :: 0 <= k < |above'| ==> !Ignored(above'[k], cfg);
    var first := Reached(path, above, e.listing);
    var inner := DirsIn(e.listing, path, above');
    assert DirsOf(e, dir, above) == [first] + inner;
    var sub := ReadDirectory(e.listing, path, cfg, acc.projectPrint);
    ReadDirectoryBranches(e.listing, path, cfg, acc.projectPrint, above');
    ReadDirectoryTree(e.listing, path, cfg, acc.projectPrint, "");
    DirShownIff(e.listing, path, cfg, acc.projectPrint, above');
    assert Below(first) == FilesIn(e.listing, path, above');
    ShownBranchesConcat([first], inner, cfg);
    assert ShownBranches([first], cfg) == BranchFor(first, cfg) + [];
    if |sub.tree| > 0 {
      assert Visit(e, dir, cfg, acc).tree == Put(acc.tree, Branch(path, sub.tree));
      AppendBranchBranches(acc.tree, path, sub.tree);
    } else {
      assert Visit(e, dir, cfg, acc).tree == acc.tree;
      assert Branches(acc.tree) + [] == Branches(acc.tree);
    }
  }

  /** A new key's directory node goes at the end, followed by those inside it. */
  lemma AppendBranchBranches(ts: seq<Node>, path: string, sub: seq<Node>)
    requires path !in Keys(ts)
    ensures Branches(Put(ts, Branch(path, sub))) == Branches(ts) + ([Branch(path, sub)] + Branches(sub))
  {
    assert Put(ts, Branch(path, sub)) == ts + [Branch(path, sub)];
    BranchesConcat(ts, [Branch(path, sub)]);
    assert [Branch(path, sub)][1..] == [];
    assert Branches([Branch(path, sub)]) == [Branch(path, sub)] + Branches(sub) + Branches([]);
  }

  /** A directory's walk builds a non-empty tree iff a file below it is printed. */
  lemma DirShownIff(l: Listing, dir: string, cfg: Config, p: string, above: seq<string>)
    requires WellNamed(l)
    requires forall k :: 0 <= k < |above| ==> !Ignored(above[k], cfg)
    ensures |ReadDirectory(l, dir, cfg, p).tree| > 0 <==> PrintedFiles(FilesIn(l, dir, above), cfg) != []
  {
    var t := ReadDirectory(l, dir, cfg, p).tree;
    ReadDirectoryLeaves(l, dir, cfg, p, above);
    ReadDirectoryValid(l, dir, cfg, p);
    if |t| > 0 {
      ValidHasLeaves(t, dir, cfg);
    } else {
      assert Leaves(t) == [];
    }
  }

  /** When every directory lists distinct names without '/', the directory
      nodes of the tree, at every depth and in pre-order, are one per
      reachable directory that lies under no ignored directory, is not
      ignored, and holds a printed file at some depth; each is keyed by the
      directory's path and holds the tree built from that directory's own
      listing (src/index.ts:82-89). */
  lemma WalkBranches(root: Listing, cfg: Config)
    requires WellNamed(root)
    ensures Branches(Walk(root, cfg).tree) == ShownBranches(DirsIn(root, "", []), cfg)
  {
    ReadDirectoryBranches(root, "", cfg, "", []);
  }

  lemma {:induction false} DirsWellNamed(l: Listing, dir: string, above: seq<string>)
    requires WellNamed(l)
    ensures forall d :: d in DirsIn(l, dir, above) ==> WellNamed(d.listing)
    decreases l, 0
  {
    match l
    case Unlistable =>
    case Listed(es) => DirsAmongWellNamed(es, dir, above);
  }

  lemma {:induction false} DirsAmongWellNamed(es: seq<Entry>, dir: string, above: seq<string>)
    requires WellNamedEntries(es)
    ensures forall d :: d in DirsAmong(es, dir, above) ==> WellNamed(d.listing)
    decreases es, 1
  {
    if es != [] {
      var path := ChildPath(dir, es[0].name);
      if es[0].Dir? {
        DirsWellNamed(es[0].listing, path, above + [path]);
      }
      DirsAmongWellNamed(es[1..], dir, above);
    }
  }

  /** The tree of a shown directory's own listing has as file keys exactly the
      printed paths below it, in order. */
  lemma SubTreeLeaves(d: Reached, cfg: Config)
    requires WellNamed(d.listing) && Shown(d, cfg)
    ensures Leaves(SubTree(d, cfg)) == Paths(PrintedFiles(Below(d), cfg))
  {
    var above' := d.above + [d.path];
    assert forall k :: 0 <= k < |above'| ==> !Ignored(above'[k], cfg);
    ReadDirectoryLeaves(d.listing, d.path, cfg, "", above');
  }

  /** When every directory lists distinct names without '/', the tree holds a
      directory node at some depth iff it is the node of a reachable directory
      that lies under no ignored directory, is not ignored, and holds a printed
      file at some depth; that node is keyed by the directory's path, its
      children are the tree built from the directory's own listing, and their
      file keys are exactly the printed paths below the directory, in order
      (src/index.ts:82-98). */
  lemma WalkDirectories(root: Listing, cfg: Config)
    requires WellNamed(root)
    ensures forall n :: n in Nodes(Walk(root, cfg).tree) && n.Branch? <==>
              exists d :: d in DirsIn(root, "", []) && Shown(d, cfg) && n == Branch(d.path, SubTree(d, cfg))
    ensures forall d :: d in DirsIn(root, "", []) && Shown(d, cfg) ==>
              Leaves(SubTree(d, cfg)) == Paths(PrintedFiles(Below(d), cfg))
  {
    var ds := DirsIn(root, "", []);
    WalkBranches(root, cfg);
    BranchesAreNodes(Walk(root, cfg).tree);
    ShownBranchesMembers(ds, cfg);
    DirsWellNamed(root, "", []);
    forall d | d in ds && Shown(d, cfg)
      ensures Leaves(SubTree(d, cfg)) == Paths(PrintedFiles(Below(d), cfg))
    {
      SubTreeLeaves(d, cfg);
    }
  }

  /** A name that joins into a path unambiguously: non-empty and free of both
      separators, since the walk turns a backslash in a name into '/'. */
  predicate PlainName(n: string)
  {
    n != [] && '/' !in n && '\\' !in n
  }

  /** Every directory, at every depth, lists distinct plain names. */
  predicate PlainNamed(l: Listing)
    decreases l, 1
  {
    match l
    case Unlistable => true
    case Listed(es) => PlainNamedEntries(es)
  }

  predicate PlainNamedEntries(es: seq<Entry>)
    decreases es, 0
  {
    && (forall i, j :: 0 <= i < j < |es| ==> es[i].name != es[j].name)
    && (forall i :: 0 <= i < |es| ==> PlainName(es[i].name))
    && (forall i :: 0 <= i < |es| ==> es[i].Dir? ==> PlainNamed(es[i].listing))
  }

  lemma {:induction false} PlainIsWellNamed(l: Listing)
    requires PlainNamed(l)
    ensures WellNamed(l)
    decreases l
  {
    match l
    case Unlistable =>
    case Listed(es) =>
      forall i | 0 <= i < |es| && es[i].Dir?
        ensures WellNamed(es[i].listing)
      {
        PlainIsWellNamed(es[i].listing);
      }
  }

  /** The files of `fs` whose path lies below the path `k`, in order. */
  function Under(fs: seq<Found>, k: string): (r: seq<Found>)
    ensures forall f :: f in r <==> f in fs && k + "/" <= f.path
  {
    if fs == [] then []
    else (if k + "/" <= fs[0].path then [fs[0]] else []) + Under(fs[1..], k)
  }

  lemma {:induction false} UnderConcat(a: seq<Found>, b: seq<Found>, k: string)
    ensures Under(a + b, k) == Under(a, k) + Under(b, k)
  {
    if a == [] {
      assert a + b == b;
    } else {
      assert (a + b)[0] == a[0];
      assert (a + b)[1..] == a[1..] + b;
      UnderConcat(a[1..], b, k);
    }
  }

  lemma {:induction false} UnderAll(fs: seq<Found>, k: string)
    requires forall f :: f in fs ==> k + "/" <= f.path
    ensures Under(fs, k) == fs
  {
    if fs != [] {
      assert fs[0] in fs;
      UnderAll(fs[1..], k);
    }
  }

  lemma UnderNone(fs: seq<Found>, k: string)
    requires forall f :: f in fs ==> !(k + "/" <= f.path)
    ensures Under(fs, k) == []
  {
    if Under(fs, k) != [] {
      assert Under(fs, k)[0] in Under(fs, k);
    }
  }

  /** Selecting by path and selecting what is printed commute. */
  lemma {:induction false} UnderPrinted(fs: seq<Found>, k: string, cfg: Config)
    ensures Under(PrintedFiles(fs, cfg), k) == PrintedFiles(Under(fs, k), cfg)
  {
    if fs != [] {
      var head := if Printed(fs[0], cfg) then [fs[0]] else [];
      assert PrintedFiles(fs, cfg) == head + PrintedFiles(fs[1..], cfg);
      UnderConcat(head, PrintedFiles(fs[1..], cfg), k);
      UnderPrinted(fs[1..], k, cfg);
      var kept := if k + "/" <= fs[0].path then [fs[0]] else [];
      assert Under(fs, k) == kept + Under(fs[1..], k);
      PrintedFilesConcat(kept, Under(fs[1..], k), cfg);
      assert Under(head, k) == PrintedFiles(kept, cfg);
    }
  }

  /** What a directory's path contributes to the paths of its entries. */
  function Stem(dir: string): (r: string)
    ensures dir != [] ==> r == dir + "/"
  {
    if dir == [] then [] else dir + "/"
  }

  lemma ChildPathPlain(dir: string, n: string)
    requires '\\' !in n
    ensures ChildPath(dir, n) == Stem(dir) + n
  {
    assert SlashSep(n) == n;
  }

  /** Path `x` is `c` or lies below it. */
  predicate AtOrBelow(x: string, c: string)
  {
    x == c || c + "/" <= x
  }

  lemma PrefixTransitive(a: string, b: string, c: string)
    requires a <= b && b <= c
    ensures a <= c
  {
    assert c[..|b|][..|a|] == c[..|a|];
  }

  /** A path at or below the child `c` of `dir` lies below `dir`. */
  lemma BelowDirectory(dir: string, n: string, x: string)
    requires dir != [] && AtOrBelow(x, ChildPath(dir, n))
    ensures dir + "/" <= x
  {
    var c := ChildPath(dir, n);
    if x != c {
      PrefixTransitive(c, c + "/", x);
      PrefixTransitive(dir + "/", c, x);
    }
  }

  lemma {:induction false} FilesInShape(l: Listing, dir: string, above: seq<string>)
    requires dir != []
    ensures forall f :: f in FilesIn(l, dir, above) ==> dir + "/" <= f.path
    decreases l, 0
  {
    match l
    case Unlistable =>
    case Listed(es) => FilesAmongShape(es, dir, above);
  }

  lemma {:induction false} FilesAmongShape(es: seq<Entry>, dir: string, above: seq<string>)
    requires dir != []
    ensures forall f :: f in FilesAmong(es, dir, above) ==> dir + "/" <= f.path
    decreases es, 1
  {
    if es != [] {
      FilesOfShape(es[0], dir, above);
      forall f | f in FilesOf(es[0], dir, above)
        ensures dir + "/" <= f.path
      {
        BelowDirectory(dir, es[0].name, f.path);
      }
      FilesAmongShape(es[1..], dir, above);
    }
  }

  /** The files of an entry lie at or below the entry's path. */
  lemma {:induction false} FilesOfShape(e: Entry, dir: string, above: seq<string>)
    requires dir != [] || e.name != []
    ensures forall f :: f in FilesOf(e, dir, above) ==> AtOrBelow(f.path, ChildPath(dir, e.name))
    decreases e, 2
  {
    var c := ChildPath(dir, e.name);
    match e
    case File(_, _) =>
    case Dir(_, listing) =>
      FilesInShape(listing, c, above + [c]);
    case Other(_) =>
  }

  lemma {:induction false} DirsInShape(l: Listing, dir: string, above: seq<string>)
    requires dir != []
    ensures forall d :: d in DirsIn(l, dir, above) ==> dir + "/" <= d.path
    decreases l, 0
  {
    match l
    case Unlistable =>
    case Listed(es) => DirsAmongShape(es, dir, above);
  }

  lemma {:induction false} DirsAmongShape(es: seq<Entry>, dir: string, above: seq<string>)
    requires dir != []
    ensures forall d :: d in DirsAmong(es, dir, above) ==> dir + "/" <= d.path
    decreases es, 1
  {
    if es != [] {
      DirsOfShape(es[0], dir, above);
      forall d | d in DirsOf(es[0], dir, above)
        ensures dir + "/" <= d.path
      {
        BelowDirectory(dir, es[0].name, d.path);
      }
      DirsAmongShape(es[1..], dir, above);
    }
  }

  /** The directories of an entry lie at or below the entry's path. */
  lemma {:induction false} DirsOfShape(e: Entry, dir: string, above: seq<string>)
    requires dir != [] || e.name != []
    ensures forall d :: d in DirsOf(e, dir, above) ==> AtOrBelow(d.path, ChildPath(dir, e.name))
    decreases e, 2
  {
    var c := ChildPath(dir, e.name);
    match e
    case File(_, _) =>
    case Dir(_, listing) =>
      DirsInShape(listing, c, above + [c]);
    case Other(_) =>
  }

  /** A path that starts with a name and a slash, and is or starts with
      another name and a slash, past the same stem: the names agree. */
  lemma NamesAgree(stem: string, a: string, b: string, y: string)
    requires '/' !in a && '/' !in b
    requires stem + a + "/" <= y
    requires y == stem + b || stem + b + "/" <= y
    ensures a == b
  {
    var m := |stem|;
    if |a| < |b| {
      SharedChar(stem + a + "/", stem + b, y, m + |a|);
      assert false;
    } else if |a| > |b| {
      SharedChar(stem + a + "/", stem + b + "/", y, m + |b|);
      assert false;
    } else {
      forall i | 0 <= i < |a|
        ensures a[i] == b[i]
      {
        SharedChar(stem + a + "/", stem + b, y, m + i);
      }
    }
  }

  /** Two prefixes of one sequence agree where both are defined. */
  lemma SharedChar(p: string, q: string, y: string, i: int)
    requires p <= y && q <= y
    requires 0 <= i < |p| && i < |q|
    ensures p[i] == q[i]
  {
  }

  /** Nothing at or below one entry of a directory lies below anything at or
      below a differently named entry of the same directory. */
  lemma Apart(dir: string, a: string, b: string, x: string, y: string)
    requires PlainName(a) && PlainName(b) && a != b
    requires AtOrBelow(x, ChildPath(dir, a)) && AtOrBelow(y, ChildPath(dir, b))
    ensures !(x + "/" <= y)
  {
    ChildPathPlain(dir, a);
    ChildPathPlain(dir, b);
    var ca := ChildPath(dir, a);
    if x + "/" <= y {
      if x != ca {
        PrefixTransitive(ca + "/", x, x + "/");
      }
      PrefixTransitive(ca + "/", x + "/", y);
      assert Stem(dir) + a + "/" <= y;
      NamesAgree(Stem(dir), a, b, y);
    }
  }

  lemma {:induction false} FilesApart(es: seq<Entry>, dir: string, above: seq<string>, x: string, name: string)
    requires PlainName(name) && AtOrBelow(x, ChildPath(dir, name))
    requires forall i :: 0 <= i < |es| ==> PlainName(es[i].name) && es[i].name != name
    ensures forall f :: f in FilesAmong(es, dir, above) ==> !(x + "/" <= f.path)
    decreases es
  {
    if es != [] {
      FilesOfShape(es[0], dir, above);
      forall f | f in FilesOf(es[0], dir, above)
        ensures !(x + "/" <= f.path)
      {
        Apart(dir, name, es[0].name, x, f.path);
      }
      FilesApart(es[1..], dir, above, x, name);
    }
  }

  lemma {:induction false} DirsApart(es: seq<Entry>, dir: string, above: seq<string>, y: string, name: string)
    requires PlainName(name) && AtOrBelow(y, ChildPath(dir, name))
    requires forall i :: 0 <= i < |es| ==> PlainName(es[i].name) && es[i].name != name
    ensures forall d :: d in DirsAmong(es, dir, above) ==> !(d.path + "/" <= y)
    decreases es
  {
    if es != [] {
      DirsOfShape(es[0], dir, above);
      forall d | d in DirsOf(es[0], dir, above)
        ensures !(d.path + "/" <= y)
      {
        Apart(dir, es[0].name, name, d.path, y);
      }
      DirsApart(es[1..], dir, above, y, name);
    }
  }

  /** Below a reachable directory's path lie exactly the files below that
      directory, in order, when every name is plain. */
  lemma {:induction false} UnderDir(l: Listing, dir: string, above: seq<string>, d: Reached)
    requires PlainNamed(l) && d in DirsIn(l, dir, above)
    ensures Under(FilesIn(l, dir, above), d.path) == Below(d)
    decreases l, 0
  {
    match l
    case Listed(es) => UnderDirAmong(es, dir, above, d);
  }

  lemma {:induction false} UnderDirAmong(es: seq<Entry>, dir: string, above: seq<string>, d: Reached)
    requires PlainNamedEntries(es) && d in DirsAmong(es, dir, above)
    ensures Under(FilesAmong(es, dir, above), d.path) == Below(d)
    decreases es, 1
  {
    var here := FilesOf(es[0], dir, above);
    var later := FilesAmong(es[1..], dir, above);
    var rest := es[1..];
    assert FilesAmong(es, dir, above) == here + later;
    assert DirsAmong(es, dir, above) == DirsOf(es[0], dir, above) + DirsAmong(rest, dir, above);
    UnderConcat(here, later, d.path);
    assert forall i :: 0 <= i < |rest| ==> rest[i] == es[i + 1];
    if d in DirsOf(es[0], dir, above) {
      UnderDirOf(es[0], dir, above, d);
      DirsOfShape(es[0], dir, above);
      FilesApart(rest, dir, above, d.path, es[0].name);
      UnderNone(later, d.path);
      assert Under(here, d.path) + [] == Under(here, d.path);
    } else {
      UnderDirAmong(rest, dir, above, d);
      FilesOfShape(es[0], dir, above);
      forall f | f in here
        ensures !(d.path + "/" <= f.path)
      {
        DirsApart(rest, dir, above, f.path, es[0].name);
      }
      UnderNone(here, d.path);
    }
  }

  lemma {:induction false} UnderDirOf(e: Entry, dir: string, above: seq<string>, d: Reached)
    requires PlainName(e.name) && (e.Dir? ==> PlainNamed(e.listing)) && d in DirsOf(e, dir, above)
    ensures Under(FilesOf(e, dir, above), d.path) == Below(d)
    decreases e, 2
  {
    var c := ChildPath(dir, e.name);
    var first := Reached(c, above, e.listing);
    var inner := DirsIn(e.listing, c, above + [c]);
    assert DirsOf(e, dir, above) == [first] + inner;
    assert FilesOf(e, dir, above) == FilesIn(e.listing, c, above + [c]);
    if d == first {
      FilesInShape(e.listing, c, above + [c]);
      UnderAll(FilesIn(e.listing, c, above + [c]), c);
    } else {
      UnderDir(e.listing, c, above + [c], d);
    }
  }

  /** The printed files whose path lies below a reachable directory's path
      are exactly the printed files below that directory, in order. */
  lemma PrintedUnderDir(root: Listing, cfg: Config, d: Reached)
    requires PlainNamed(root) && d in DirsIn(root, "", [])
    ensures Under(PrintedFiles(FilesIn(root, "", []), cfg), d.path) == PrintedFiles(Below(d), cfg)
  {
    UnderPrinted(FilesIn(root, "", []), d.path, cfg);
    UnderDir(root, "", [], d);
  }

  /** A directory node of the tree belongs to a reachable directory with a
      printed path below it, and its file keys are the printed paths below it. */
  lemma BranchHasDirectory(root: Listing, cfg: Config, k: string, cs: seq<Node>)
    requires PlainNamed(root) && Branch(k, cs) in Nodes(Walk(root, cfg).tree)
    ensures exists d :: d in DirsIn(root, "", []) && d.path == k
              && (forall i :: 0 <= i < |d.above| ==> !Ignored(d.above[i], cfg))
              && !Ignored(k, cfg)
              && Under(PrintedFiles(FilesIn(root, "", []), cfg), k) != []
    ensures Leaves(cs) == Paths(Under(PrintedFiles(FilesIn(root, "", []), cfg), k))
  {
    PlainIsWellNamed(root);
    WalkDirectories(root, cfg);
    var d :| d in DirsIn(root, "", []) && Shown(d, cfg) && Branch(k, cs) == Branch(d.path, SubTree(d, cfg));
    PrintedUnderDir(root, cfg, d);
  }

  /** A reachable directory with a printed path below it has its node in the tree. */
  lemma DirectoryHasBranch(root: Listing, cfg: Config, d: Reached)
    requires PlainNamed(root) && d in DirsIn(root, "", [])
    requires forall i :: 0 <= i < |d.above| ==> !Ignored(d.above[i], cfg)
    requires !Ignored(d.path, cfg)
    requires Under(PrintedFiles(FilesIn(root, "", []), cfg), d.path) != []
    ensures Branch(d.path, SubTree(d, cfg)) in Nodes(Walk(root, cfg).tree)
  {
    PlainIsWellNamed(root);
    PrintedUnderDir(root, cfg, d);
    assert Shown(d, cfg);
    WalkDirectories(root, cfg);
  }

  /** The two directions above, for one key. */
  lemma BranchAtIff(root: Listing, cfg: Config, k: string)
    requires PlainNamed(root)
    ensures (exists cs :: Branch(k, cs) in Nodes(Walk(root, cfg).tree)) <==>
            exists d :: d in DirsIn(root, "", []) && d.path == k
              && (forall i :: 0 <= i < |d.above| ==> !Ignored(d.above[i], cfg))
              && !Ignored(k, cfg)
              && Under(PrintedFiles(FilesIn(root, "", []), cfg), k) != []
  {
    if exists cs :: Branch(k, cs) in Nodes(Walk(root, cfg).tree) {
      var cs :| Branch(k, cs) in Nodes(Walk(root, cfg).tree);
      BranchHasDirectory(root, cfg, k, cs);
    }
    if exists d :: d in DirsIn(root, "", []) && d.path == k
         && (forall i :: 0 <= i < |d.above| ==> !Ignored(d.above[i], cfg))
         && !Ignored(k, cfg)
         && Under(PrintedFiles(FilesIn(root, "", []), cfg), k) != [] {
      var d :| d in DirsIn(root, "", []) && d.path == k
         && (forall i :: 0 <= i < |d.above| ==> !Ignored(d.above[i], cfg))
         && !Ignored(k, cfg)
         && Under(PrintedFiles(FilesIn(root, "", []), cfg), k) != [];
      DirectoryHasBranch(root, cfg, d);
    }
  }

  /** When every directory lists distinct plain names, the tree holds a
      directory node keyed `k` at some depth iff `k` is the path of a reachable
      directory that lies under no ignored directory, is not ignored, and has
      a printed path starting with `k` and a slash; the file keys under such a
      node are exactly the printed paths starting so, in order
      (src/index.ts:82-98). */
  lemma WalkDirectoriesByPath(root: Listing, cfg: Config)
    requires PlainNamed(root)
    ensures forall k :: (exists cs :: Branch(k, cs) in Nodes(Walk(root, cfg).tree)) <==>
              exists d :: d in DirsIn(root, "", []) && d.path == k
                && (forall i :: 0 <= i < |d.above| ==> !Ignored(d.above[i], cfg))
                && !Ignored(k, cfg)
                && Under(PrintedFiles(FilesIn(root, "", []), cfg), k) != []
    ensures forall k, cs :: Branch(k, cs) in Nodes(Walk(root, cfg).tree) ==>
              Leaves(cs) == Paths(Under(PrintedFiles(FilesIn(root, "", []), cfg), k))
  {
    forall k {
      BranchAtIff(root, cfg, k);
    }
    forall k, cs | Branch(k, cs) in Nodes(Walk(root, cfg).tree) {
      BranchHasDirectory(root, cfg, k, cs);
    }
  }

  /** Why the path form asks for names without '\': a root directory `n`
      holding a file `m`, next to a root file whose name is `n`, a backslash
      and `m`, gives two files with the path `n/m`, and only one of them lies
      in the directory. */
  lemma BackslashNameBlursPaths(n: string, m: string, c1: Content, c2: Content)
    requires PlainName(n) && PlainName(m)
    ensures var inner := Listed([File(m, c1)]);
            var root := Listed([Dir(n, inner), File(n + "\\" + m, c2)]);
            && WellNamed(root)
            && Reached(n, [], inner) in DirsIn(root, "", [])
            && |Under(FilesIn(root, "", []), n)| == 2
            && |Below(Reached(n, [], inner))| == 1
  {
    var inner := Listed([File(m, c1)]);
    var root := Listed([Dir(n, inner), File(n + "\\" + m, c2)]);
    BlurredWellNamed(n, m, c1, c2);
    BlurredDirectory(n, m, c1, c2);
    BlurredFiles(n, m, c1, c2);
    var path := n + "/" + m;
    var fb := Found(path, [n], c1);
    var fw := Found(path, [], c2);
    assert n + "/" <= path;
    assert Under([fw], n) == [fw] + Under([], n);
    assert Under([fb, fw], n) == [fb] + Under([fw], n);
  }

  lemma BlurredWellNamed(n: string, m: string, c1: Content, c2: Content)
    requires PlainName(n) && PlainName(m)
    ensures WellNamed(Listed([Dir(n, Listed([File(m, c1)])), File(n + "\\" + m, c2)]))
  {
    var es := [Dir(n, Listed([File(m, c1)])), File(n + "\\" + m, c2)];
    assert |es[1].name| > |es[0].name|;
    assert WellNamedEntries([File(m, c1)]);
  }

  lemma BlurredDirectory(n: string, m: string, c1: Content, c2: Content)
    requires PlainName(n) && PlainName(m)
    ensures Reached(n, [], Listed([File(m, c1)])) in DirsIn(Listed([Dir(n, Listed([File(m, c1)])), File(n + "\\" + m, c2)]), "", [])
  {
    var inner := Listed([File(m, c1)]);
    var es := [Dir(n, inner), File(n + "\\" + m, c2)];
    ChildPathPlain("", n);
    var here := DirsOf(es[0], "", []);
    assert here[0] == Reached(n, [], inner);
    assert DirsAmong(es, "", []) == here + DirsAmong(es[1..], "", []);
    assert DirsAmong(es, "", [])[0] == here[0];
  }

  lemma BlurredFiles(n: string, m: string, c1: Content, c2: Content)
    requires PlainName(n) && PlainName(m)
    ensures FilesIn(Listed([Dir(n, Listed([File(m, c1)])), File(n + "\\" + m, c2)]), "", [])
         == [Found(n + "/" + m, [n], c1), Found(n + "/" + m, [], c2)]
    ensures Below(Reached(n, [], Listed([File(m, c1)]))) == [Found(n + "/" + m, [n], c1)]
  {
    var inner := Listed([File(m, c1)]);
    var w := n + "\\" + m;
    var es := [Dir(n, inner), File(w, c2)];
    ChildPathPlain("", n);
    ChildPathPlain(n, m);
    SlashSepJoin(n, m);
    var fb := Found(n + "/" + m, [n], c1);
    var fw := Found(n + "/" + m, [], c2);
    assert [] + [n] == [n];
    assert FilesAmong([File(m, c1)], n, [n]) == FilesOf(File(m, c1), n, [n]) + FilesAmong([], n, [n]);
    assert FilesIn(inner, n, [n]) == [fb];
    assert Below(Reached(n, [], inner)) == FilesIn(inner, n, [n]);
    assert ChildPath("", n) == n by {
      assert Stem("") + n == n;
    }
    assert FilesOf(es[0], "", []) == FilesIn(inner, n, [] + [n]);
    assert ChildPath("", w) == n + "/" + m;
    assert FilesOf(File(w, c2), "", []) == [fw];
    assert es[1..] == [File(w, c2)];
    assert FilesAmong(es[1..], "", []) == FilesOf(File(w, c2), "", []) + FilesAmong([], "", []);
    assert FilesAmong(es, "", []) == FilesOf(es[0], "", []) + FilesAmong(es[1..], "", []);
  }

  lemma SlashSepJoin(n: string, m: string)
    requires '\\' !in n && '\\' !in m
    ensures SlashSep(n + "\\" + m) == n + "/" + m
  {
    var w := n + "\\" + m;
    forall i | 0 <= i < |w|
      ensures SlashSep(w)[i] == (n + "/" + m)[i]
    {
      if i < |n| {
        assert w[i] == n[i];
      } else if i > |n| {
        assert w[i] == m[i - |n| - 1];
      }
    }
  }
}
