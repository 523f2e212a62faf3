/**
 The tree renderer `buildTreeStructure` (src/index.ts:112-119) and the final
 document (src/index.ts:136). The global string accumulator becomes the
 function's result.
 */
module Render {
  import opened Walker
  import opened Selection

  /** `n` spaces. */
  function Spaces(n: nat): (r: string)
    ensures |r| == n
    ensures forall i :: 0 <= i < n ==> r[i] == ' '
  {
    if n == 0 then [] else Spaces(n - 1) + " "
  }

  /** `buildTreeStructure(tree, indent)`: for each key in order, the line
      `indent + key`, followed by the lines of its children indented two more
      spaces when it has any. */
  function RenderTree(ts: seq<Node>, indent: string): string
    decreases ts
  {
    if ts == [] then []
    else
      indent + ts[0].key + "\n"
      + (if ts[0].Branch? && |ts[0].children| > 0 then RenderTree(ts[0].children, indent + "  ") else [])
      + RenderTree(ts[1..], indent)
  }

  /** One line of the outline: a key and its nesting depth. */
  datatype Line = Line(depth: nat, key: string)

  /** The keys of a tree with their depths, in pre-order: the outline the
      rendering is measured against. */
  function Outline(ts: seq<Node>, depth: nat): (r: seq<Line>)
    ensures |r| == |Nodes(ts)|
    ensures forall i :: 0 <= i < |r| ==> r[i].key == Nodes(ts)[i].key && r[i].depth >= depth
    decreases ts
  {
    if ts == [] then []
    else
      var below := if ts[0].Branch? then Outline(ts[0].children, depth + 1) else [];
      var r := [Line(depth, ts[0].key)] + below + Outline(ts[1..], depth);
      assert Nodes(ts) == [ts[0]] + (if ts[0].Branch? then Nodes(ts[0].children) else []) + Nodes(ts[1..]);
      r
  }

  /** The text of an outline: each key on its own line after two spaces per
      level of depth. */
  function Format(lines: seq<Line>): string
  {
    if lines == [] then [] else Spaces(2 * lines[0].depth) + lines[0].key + "\n" + Format(lines[1..])
  }

  lemma {:induction false} FormatConcat(a: seq<Line>, b: seq<Line>)
    ensures Format(a + b) == Format(a) + Format(b)
  {
    if a == [] {
      assert a + b == b;
    } else {
      assert (a + b)[0] == a[0];
      assert (a + b)[1..] == a[1..] + b;
      FormatConcat(a[1..], b);
    }
  }

  lemma SpacesStep(d: nat)
    ensures Spaces(2 * d) + "  " == Spaces(2 * (d + 1))
  {
    assert Spaces(2 * (d + 1)) == Spaces(2 * d + 1) + " ";
  }

  /** The rendering of a tree is the formatted outline: one line per node at
      every depth, in pre-order, indented two spaces per level. */
  lemma {:induction false} RenderIsOutline(ts: seq<Node>, depth: nat)
    ensures RenderTree(ts, Spaces(2 * depth)) == Format(Outline(ts, depth))
    decreases ts
  {
    if ts != [] {
      var head := ts[0];
      var below := if head.Branch? then Outline(head.children, depth + 1) else [];
      var rest := Outline(ts[1..], depth);
      var line := Line(depth, head.key);
      if head.Branch? {
        SpacesStep(depth);
        RenderIsOutline(head.children, depth + 1);
      }
      RenderIsOutline(ts[1..], depth);
      FormatConcat([line] + below, rest);
      FormatConcat([line], below);
      assert Format([line]) == Spaces(2 * depth) + head.key + "\n";
      assert head.Branch? && |head.children| == 0 ==> Format(below) == [];
    }
  }

  /** The number of newline characters in `s`. */
  function NewlineCount(s: string): nat
  {
    if s == [] then 0 else (if s[0] == '\n' then 1 else 0) + NewlineCount(s[1..])
  }

  lemma {:induction false} NewlineCountConcat(a: string, b: string)
    ensures NewlineCount(a + b) == NewlineCount(a) + NewlineCount(b)
  {
    if a == [] {
      assert a + b == b;
    } else {
      assert (a + b)[1..] == a[1..] + b;
      NewlineCountConcat(a[1..], b);
    }
  }

  lemma {:induction false} NoNewline(s: string)
    requires '\n' !in s
    ensures NewlineCount(s) == 0
  {
    if s != [] {
      NoNewline(s[1..]);
    }
  }

  lemma {:induction false} FormatLineCount(lines: seq<Line>)
    requires forall i :: 0 <= i < |lines| ==> '\n' !in lines[i].key
    ensures NewlineCount(Format(lines)) == |lines|
  {
    if lines != [] {
      var sp := Spaces(2 * lines[0].depth);
      NoNewline(sp);
      NoNewline(lines[0].key);
      NewlineCountConcat(sp, lines[0].key);
      NewlineCountConcat(sp + lines[0].key, "\n");
      NewlineCountConcat(sp + lines[0].key + "\n", Format(lines[1..]));
      FormatLineCount(lines[1..]);
    }
  }

  /** When no key holds a line break, the rendering has exactly one line per
      node of the tree. */
  lemma OneLinePerNode(ts: seq<Node>)
    requires forall n :: n in Nodes(ts) ==> '\n' !in n.key
    ensures NewlineCount(RenderTree(ts, "")) == |Nodes(ts)|
  {
    RenderIsOutline(ts, 0);
    var lines := Outline(ts, 0);
    forall i | 0 <= i < |lines|
      ensures '\n' !in lines[i].key
    {
      assert Nodes(ts)[i] in Nodes(ts);
    }
    FormatLineCount(lines);
  }

  const Heading: string := "File structure:\n"
  const Separator: string := "\n\nProject print:\n"

  /** The text written to the output file (src/index.ts:136). */
  function Document(w: Walked): (r: string)
    ensures Heading <= r
    ensures |r| == |Heading| + |RenderTree(w.tree, "")| + |Separator| + |w.projectPrint|
    ensures r[|Heading|..|Heading| + |RenderTree(w.tree, "")|] == RenderTree(w.tree, "")
    ensures r[|r| - |w.projectPrint|..] == w.projectPrint
  {
    var t := RenderTree(w.tree, "");
    var r := Heading + t + Separator + w.projectPrint;
    assert r[|Heading|..|Heading| + |t|] == t;
    r
  }

  /** One run of the tool on a directory with the given options. */
  function Run(root: Listing, o: Options): string
  {
    Document(Walk(root, ConfigOf(o)))
  }

  /** The whole output, end to end: the formatted outline of the walk's tree,
      then the records of every file that is reachable, read, under no ignored
      directory, not ignored, and accepted by `shouldProcess`. */
  lemma RunDocument(root: Listing, o: Options)
    ensures Run(root, o)
         == Heading + Format(Outline(Walk(root, ConfigOf(o)).tree, 0)) + Separator
            + PrintOf(FilesIn(root, "", []), ConfigOf(o))
  {
    WalkPrint(root, ConfigOf(o));
    RenderIsOutline(Walk(root, ConfigOf(o)).tree, 0);
  }
}
