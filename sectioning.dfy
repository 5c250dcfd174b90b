/**
 * `splitByHeading`: group the top-level children of a markdown document into
 * sections. Every heading whose depth equals the requested level opens a new
 * section (its trimmed text becomes the section's heading); every other node
 * is appended to the section currently open; nodes before the first such
 * heading belong to no section.
 *
 * The method `SplitByHeading` is the loop of the source. It is proved equal
 * to `Sections`, which is defined in two steps: `Cuts` cuts the node
 * sequence front to back at its split points, each cut holding the heading
 * node and the nodes under it, and `Sections` renders each cut's heading
 * node to its text. The promised properties are lemmas about these
 * definitions. They work on index ranges `[i, hi)` of one node sequence;
 * `CutsUpTo(nodes, level, hi)` describes the first `hi` nodes.
 */
module Sectioning {
  import opened Mdast

  datatype Option<T> = None | Some(value: T)

  /** One element of the result: the heading's text and the nodes under it. */
  datatype Section = Section(heading: string, children: seq<Node>)

  /** A section before its heading node is rendered to text. */
  datatype Cut = Cut(head: Node, children: seq<Node>)

  /** A node opens a new section when it is a heading whose depth is exactly
      the requested level. */
  predicate IsSplitPoint(node: Node, level: Depth) {
    node.Heading? && node.depth == level
  }

  /** The first split point in `nodes[i..hi]`, or `hi` when there is none. */
  function NextSplit(nodes: seq<Node>, level: Depth, i: nat, hi: nat): (k: nat)
    requires i <= hi <= |nodes|
    ensures i <= k <= hi
    ensures k < hi ==> IsSplitPoint(nodes[k], level)
    decreases hi - i
  {
    if i == hi || IsSplitPoint(nodes[i], level) then i
    else NextSplit(nodes, level, i + 1, hi)
  }

  /** The split points of `nodes[i..hi]`, in order. */
  function SplitPointsIn(nodes: seq<Node>, level: Depth, i: nat, hi: nat): (hs: seq<Node>)
    requires i <= hi <= |nodes|
    ensures |hs| <= hi - i
    decreases hi - i
  {
    if i == hi then []
    else (if IsSplitPoint(nodes[i], level) then [nodes[i]] else []) + SplitPointsIn(nodes, level, i + 1, hi)
  }

  function SplitPoints(nodes: seq<Node>, level: Depth): seq<Node> {
    SplitPointsIn(nodes, level, 0, |nodes|)
  }

  /** The cuts of `nodes[i..hi]`, which is empty or starts at a split point:
      the split point heads a cut holding every node up to the next split
      point, and the rest is cut the same way. */
  function CutsFrom(nodes: seq<Node>, level: Depth, i: nat, hi: nat): seq<Cut>
    requires i <= hi <= |nodes|
    requires i < hi ==> IsSplitPoint(nodes[i], level)
    decreases hi - i
  {
    if i == hi then []
    else
      var k := NextSplit(nodes, level, i + 1, hi);
      [Cut(nodes[i], nodes[i + 1..k])] + CutsFrom(nodes, level, k, hi)
  }

  /** The cuts of the first `hi` nodes: the run before the first split point
      is dropped and the remainder is cut. */
  function CutsUpTo(nodes: seq<Node>, level: Depth, hi: nat): seq<Cut>
    requires hi <= |nodes|
  {
    CutsFrom(nodes, level, NextSplit(nodes, level, 0, hi), hi)
  }

  function Cuts(nodes: seq<Node>, level: Depth): seq<Cut> {
    CutsUpTo(nodes, level, |nodes|)
  }

  /** Renders every cut's heading node with `nodeText`. */
  function Render(cuts: seq<Cut>): seq<Section> {
    seq(|cuts|, m requires 0 <= m < |cuts| => Section(NodeText(cuts[m].head), cuts[m].children))
  }

  /** What `splitByHeading` returns for the first `hi` nodes. */
  function SectionsUpTo(nodes: seq<Node>, level: Depth, hi: nat): seq<Section>
    requires hi <= |nodes|
  {
    Render(CutsUpTo(nodes, level, hi))
  }

  /** What `splitByHeading` returns for a root with children `nodes`. */
  function Sections(nodes: seq<Node>, level: Depth): seq<Section> {
    SectionsUpTo(nodes, level, |nodes|)
  }

  /** What one more node does to the cuts made so far: a split point starts
      a new cut with no children; any other node joins the last cut, or is
      dropped when there is none. */
  function ExtendCuts(cuts: seq<Cut>, node: Node, level: Depth): seq<Cut> {
    if IsSplitPoint(node, level) then cuts + [Cut(node, [])]
    else if cuts == [] then []
    else
      var last := cuts[|cuts| - 1];
      cuts[..|cuts| - 1] + [last.(children := last.children + [node])]
  }

  /** The same step on rendered sections. */
  function Extend(sections: seq<Section>, node: Node, level: Depth): seq<Section> {
    if IsSplitPoint(node, level) then sections + [Section(NodeText(node), [])]
    else if sections == [] then []
    else
      var last := sections[|sections| - 1];
      sections[..|sections| - 1] + [last.(children := last.children + [node])]
  }

  /** Each cut's heading node followed by its children, cut after cut. */
  function Flatten(cuts: seq<Cut>): seq<Node> {
    if cuts == [] then []
    else [cuts[0].head] + cuts[0].children + Flatten(cuts[1..])
  }

  /** The sections already pushed, followed by the one still open. */
  function Pending(sections: seq<Section>, current: Option<Section>): seq<Section> {
    if current.Some? then sections + [current.value] else sections
  }

  // ---------------------------------------------------------------------------
  // The loop of the source.

  method SplitByHeading(root: Root, level: Depth) returns (sections: seq<Section>)
    ensures sections == Sections(root.children, level)
    ensures |sections| == |SplitPoints(root.children, level)|
  {
    var nodes := root.children;
    sections := [];
    var current: Option<Section> := None;
    for i := 0 to |nodes|
      invariant Pending(sections, current) == SectionsUpTo(nodes, level, i)
      invariant current.None? ==> sections == []
    {
      var node := nodes[i];
      SectionsUpToExtend(nodes, level, i);
      if node.Heading? && node.depth == level {
        if current.Some? {
          sections := sections + [current.value];
        }
        current := Some(Section(NodeText(node), []));
      } else if current.Some? {
        current := Some(current.value.(children := current.value.children + [node]));
      }
    }
    if current.Some? {
      sections := sections + [current.value];
    }
    SectionCount(nodes, level);
  }

  // ---------------------------------------------------------------------------
  // Facts about the definitions.

  /** Looking at one more node moves the first split point only when there
      was none before. */
  lemma {:induction false} NextSplitExtend(nodes: seq<Node>, level: Depth, i: nat, hi: nat)
    requires i <= hi < |nodes|
    ensures NextSplit(nodes, level, i, hi + 1) ==
      if NextSplit(nodes, level, i, hi) < hi then NextSplit(nodes, level, i, hi)
      else if IsSplitPoint(nodes[hi], level) then hi
      else hi + 1
    decreases hi - i
  {
    if i < hi && !IsSplitPoint(nodes[i], level) {
      NextSplitExtend(nodes, level, i + 1, hi);
    }
  }

  /** A run without split points is skipped by `NextSplit`. */
  lemma {:induction false} NextSplitSkip(nodes: seq<Node>, level: Depth, i: nat, k: nat, hi: nat)
    requires i <= k <= hi <= |nodes|
    requires forall j :: i <= j < k ==> !IsSplitPoint(nodes[j], level)
    ensures NextSplit(nodes, level, i, hi) == NextSplit(nodes, level, k, hi)
    decreases k - i
  {
    if i < k {
      NextSplitSkip(nodes, level, i + 1, k, hi);
    }
  }

  /** `NextSplit` passes over no split point. */
  lemma {:induction false} NextSplitSkipsNone(nodes: seq<Node>, level: Depth, i: nat, hi: nat)
    requires i <= hi <= |nodes|
    ensures forall j :: i <= j < NextSplit(nodes, level, i, hi) ==> !IsSplitPoint(nodes[j], level)
    decreases hi - i
  {
    if i < hi && !IsSplitPoint(nodes[i], level) {
      NextSplitSkipsNone(nodes, level, i + 1, hi);
    }
  }

  /** The split points of a range start at its first split point. */
  lemma {:induction false} SplitPointsFromNext(nodes: seq<Node>, level: Depth, i: nat, hi: nat)
    requires i <= hi <= |nodes|
    ensures SplitPointsIn(nodes, level, i, hi) == SplitPointsIn(nodes, level, NextSplit(nodes, level, i, hi), hi)
    decreases hi - i
  {
    if i < hi && !IsSplitPoint(nodes[i], level) {
      SplitPointsFromNext(nodes, level, i + 1, hi);
    }
  }

  /** A range has no split points exactly when none of its nodes is one. */
  lemma {:induction false} SplitPointsNone(nodes: seq<Node>, level: Depth, i: nat, hi: nat)
    requires i <= hi <= |nodes|
    ensures SplitPointsIn(nodes, level, i, hi) == [] <==> forall j :: i <= j < hi ==> !IsSplitPoint(nodes[j], level)
    decreases hi - i
  {
    if i < hi {
      SplitPointsNone(nodes, level, i + 1, hi);
    }
  }

  /** A split point alone makes one cut with no children. */
  lemma CutsFromSingle(nodes: seq<Node>, level: Depth, hi: nat)
    requires hi < |nodes| && IsSplitPoint(nodes[hi], level)
    ensures CutsFrom(nodes, level, hi, hi + 1) == [Cut(nodes[hi], [])]
  {
    assert NextSplit(nodes, level, hi + 1, hi + 1) == hi + 1;
    assert nodes[hi + 1..hi + 1] == [];
  }

  /** The heads of the cuts of `nodes[i..hi]` are its split points, one cut each. */
  lemma {:induction false} CutsFromHeads(nodes: seq<Node>, level: Depth, i: nat, hi: nat)
    requires i <= hi <= |nodes|
    requires i < hi ==> IsSplitPoint(nodes[i], level)
    ensures var cs, hs := CutsFrom(nodes, level, i, hi), SplitPointsIn(nodes, level, i, hi);
      |cs| == |hs| && forall m :: 0 <= m < |cs| ==> cs[m].head == hs[m]
    decreases hi - i
  {
    if i < hi {
      var k := NextSplit(nodes, level, i + 1, hi);
      SplitPointsFromNext(nodes, level, i + 1, hi);
      CutsFromHeads(nodes, level, k, hi);
      var cs', hs' := CutsFrom(nodes, level, k, hi), SplitPointsIn(nodes, level, k, hi);
      var cs, hs := CutsFrom(nodes, level, i, hi), SplitPointsIn(nodes, level, i, hi);
      assert cs == [Cut(nodes[i], nodes[i + 1..k])] + cs';
      assert hs == [nodes[i]] + hs';
      forall m | 0 <= m < |cs|
        ensures cs[m].head == hs[m]
      {
        if m > 0 {
          assert cs[m] == cs'[m - 1] && hs[m] == hs'[m - 1];
        }
      }
    }
  }

  /** No child of any of the cuts is a split point. */
  predicate ChildrenNotSplitPoints(cuts: seq<Cut>, level: Depth) {
    forall m, j :: 0 <= m < |cuts| && 0 <= j < |cuts[m].children| ==> !IsSplitPoint(cuts[m].children[j], level)
  }

  /** The cuts of `nodes[i..hi]` hold no split point among their children. */
  lemma {:induction false} CutsFromChildren(nodes: seq<Node>, level: Depth, i: nat, hi: nat)
    requires i <= hi <= |nodes|
    requires i < hi ==> IsSplitPoint(nodes[i], level)
    ensures ChildrenNotSplitPoints(CutsFrom(nodes, level, i, hi), level)
    decreases hi - i
  {
    if i < hi {
      var k := NextSplit(nodes, level, i + 1, hi);
      CutsFromChildren(nodes, level, k, hi);
      NextSplitSkipsNone(nodes, level, i + 1, hi);
      var run, rest := nodes[i + 1..k], CutsFrom(nodes, level, k, hi);
      var cs := CutsFrom(nodes, level, i, hi);
      assert cs == [Cut(nodes[i], run)] + rest;
      forall m, j | 0 <= m < |cs| && 0 <= j < |cs[m].children|
        ensures !IsSplitPoint(cs[m].children[j], level)
      {
        if m == 0 {
          assert cs[m].children[j] == nodes[i + 1 + j];
        } else {
          assert cs[m] == rest[m - 1];
        }
      }
    }
  }

  /** The cuts of `nodes[i..hi]`, flattened, give back `nodes[i..hi]`. */
  lemma {:induction false} CutsFromFlatten(nodes: seq<Node>, level: Depth, i: nat, hi: nat)
    requires i <= hi <= |nodes|
    requires i < hi ==> IsSplitPoint(nodes[i], level)
    ensures Flatten(CutsFrom(nodes, level, i, hi)) == nodes[i..hi]
    decreases hi - i
  {
    if i < hi {
      var k := NextSplit(nodes, level, i + 1, hi);
      var first, rest := Cut(nodes[i], nodes[i + 1..k]), CutsFrom(nodes, level, k, hi);
      CutsFromFlatten(nodes, level, k, hi);
      FlattenCons(first, rest);
      SliceJoin(nodes, i, k, hi);
    }
  }

  /** Flattening a leading cut puts its heading node and children first. */
  lemma FlattenCons(first: Cut, rest: seq<Cut>)
    ensures Flatten([first] + rest) == [first.head] + first.children + Flatten(rest)
  {
    assert ([first] + rest)[1..] == rest;
  }

  /** A range splits into its first node, the run up to `k`, and the rest. */
  lemma SliceJoin(nodes: seq<Node>, i: nat, k: nat, hi: nat)
    requires i < k <= hi <= |nodes|
    ensures nodes[i..hi] == [nodes[i]] + nodes[i + 1..k] + nodes[k..hi]
  {
    assert nodes[i + 1..hi] == nodes[i + 1..k] + nodes[k..hi];
    assert nodes[i..hi] == [nodes[i]] + nodes[i + 1..hi];
  }

  /** The one-node step distributes over a leading cut. */
  lemma ExtendCutsCons(head: Cut, tail: seq<Cut>, node: Node, level: Depth)
    requires tail != []
    ensures ExtendCuts([head] + tail, node, level) == [head] + ExtendCuts(tail, node, level)
  {
    if !IsSplitPoint(node, level) {
      assert ([head] + tail)[..|tail|] == [head] + tail[..|tail| - 1];
    }
  }

  /** The last cut of `nodes[i..hi]` starts at `i`: one more node either
      starts a new cut or joins this one. */
  lemma CutsFromExtendLast(nodes: seq<Node>, level: Depth, i: nat, hi: nat)
    requires i < hi < |nodes|
    requires IsSplitPoint(nodes[i], level)
    requires NextSplit(nodes, level, i + 1, hi) == hi
    ensures CutsFrom(nodes, level, i, hi + 1) == ExtendCuts(CutsFrom(nodes, level, i, hi), nodes[hi], level)
  {
    NextSplitExtend(nodes, level, i + 1, hi);
    var node, first := nodes[hi], Cut(nodes[i], nodes[i + 1..hi]);
    assert CutsFrom(nodes, level, i, hi) == [first] + CutsFrom(nodes, level, hi, hi);
    if IsSplitPoint(node, level) {
      assert NextSplit(nodes, level, i + 1, hi + 1) == hi;
      CutsFromSingle(nodes, level, hi);
      assert CutsFrom(nodes, level, i, hi + 1) == [first] + [Cut(node, [])];
    } else {
      assert NextSplit(nodes, level, i + 1, hi + 1) == hi + 1;
      assert nodes[i + 1..hi + 1] == nodes[i + 1..hi] + [node];
      assert CutsFrom(nodes, level, i, hi + 1) == [Cut(nodes[i], nodes[i + 1..hi + 1])] + CutsFrom(nodes, level, hi + 1, hi + 1);
    }
  }

  /** One more node on a range that starts at a split point is the one-node
      step on its cuts. */
  lemma {:induction false} CutsFromExtend(nodes: seq<Node>, level: Depth, i: nat, hi: nat)
    requires i <= hi < |nodes|
    requires IsSplitPoint(nodes[i], level)
    ensures CutsFrom(nodes, level, i, hi + 1) == ExtendCuts(CutsFrom(nodes, level, i, hi), nodes[hi], level)
    decreases hi - i
  {
    if i == hi {
      CutsFromSingle(nodes, level, hi);
    } else {
      var k := NextSplit(nodes, level, i + 1, hi);
      if k < hi {
        NextSplitExtend(nodes, level, i + 1, hi);
        CutsFromExtend(nodes, level, k, hi);
        ExtendCutsCons(Cut(nodes[i], nodes[i + 1..k]), CutsFrom(nodes, level, k, hi), nodes[hi], level);
      } else {
        CutsFromExtendLast(nodes, level, i, hi);
      }
    }
  }

  /** The cuts of the first `hi + 1` nodes are the one-node step applied to
      the cuts of the first `hi`. */
  lemma CutsUpToExtend(nodes: seq<Node>, level: Depth, hi: nat)
    requires hi < |nodes|
    ensures CutsUpTo(nodes, level, hi + 1) == ExtendCuts(CutsUpTo(nodes, level, hi), nodes[hi], level)
  {
    var lead := NextSplit(nodes, level, 0, hi);
    NextSplitExtend(nodes, level, 0, hi);
    if lead < hi {
      CutsFromExtend(nodes, level, lead, hi);
    } else if IsSplitPoint(nodes[hi], level) {
      CutsFromSingle(nodes, level, hi);
    }
  }

  /** Rendering commutes with the one-node step. */
  lemma RenderExtend(cuts: seq<Cut>, node: Node, level: Depth)
    ensures Render(ExtendCuts(cuts, node, level)) == Extend(Render(cuts), node, level)
  {
    var r, ext := Render(cuts), ExtendCuts(cuts, node, level);
    if IsSplitPoint(node, level) {
      assert Render(ext) == r + [Section(NodeText(node), [])];
    } else if cuts != [] {
      var n := |cuts| - 1;
      var e := Extend(r, node, level);
      assert |Render(ext)| == |e|;
      forall m | 0 <= m < |e|
        ensures Render(ext)[m] == e[m]
      {
        if m < n {
          assert ext[m] == cuts[m] && e[m] == r[m];
        }
      }
    }
  }

  // ---------------------------------------------------------------------------
  // The properties of `splitByHeading`.

  /** One more node: a split point appends a new, empty section (so the last
      section is emitted even with nothing after it, and an empty one is
      kept); any other node joins the open section, or is dropped when none
      is open. */
  lemma SectionsUpToExtend(nodes: seq<Node>, level: Depth, hi: nat)
    requires hi < |nodes|
    ensures SectionsUpTo(nodes, level, hi + 1) == Extend(SectionsUpTo(nodes, level, hi), nodes[hi], level)
  {
    CutsUpToExtend(nodes, level, hi);
    RenderExtend(CutsUpTo(nodes, level, hi), nodes[hi], level);
  }

  /** A heading of the requested depth with nothing after it still closes
      the result with its own section, which has no children. */
  lemma TrailingHeadingKept(nodes: seq<Node>, level: Depth)
    requires |nodes| > 0 && IsSplitPoint(nodes[|nodes| - 1], level)
    ensures var r := Sections(nodes, level);
      |r| > 0 && r[|r| - 1] == Section(NodeText(nodes[|nodes| - 1]), [])
  {
    SectionsUpToExtend(nodes, level, |nodes| - 1);
  }

  /** There are exactly as many sections as headings of the requested depth. */
  lemma SectionCount(nodes: seq<Node>, level: Depth)
    ensures |Sections(nodes, level)| == |SplitPoints(nodes, level)|
  {
    var lead := NextSplit(nodes, level, 0, |nodes|);
    SplitPointsFromNext(nodes, level, 0, |nodes|);
    CutsFromHeads(nodes, level, lead, |nodes|);
  }

  /** The result is empty exactly when no node is a heading of the requested depth. */
  lemma NoSplitPointNoSections(nodes: seq<Node>, level: Depth)
    ensures Sections(nodes, level) == [] <==> forall i :: 0 <= i < |nodes| ==> !IsSplitPoint(nodes[i], level)
  {
    SectionCount(nodes, level);
    SplitPointsNone(nodes, level, 0, |nodes|);
  }

  /** Section m is headed by the text of the m-th heading of the requested
      depth, so the sections come in heading order. */
  lemma SectionHeadings(nodes: seq<Node>, level: Depth)
    ensures var r, hs := Sections(nodes, level), SplitPoints(nodes, level);
      |r| == |hs| && forall m :: 0 <= m < |r| ==> r[m].heading == NodeText(hs[m])
  {
    var lead := NextSplit(nodes, level, 0, |nodes|);
    SplitPointsFromNext(nodes, level, 0, |nodes|);
    CutsFromHeads(nodes, level, lead, |nodes|);
  }

  /** No section's children include a heading of the requested depth; a
      heading of any other depth, deeper or shallower, is never a split point. */
  lemma ChildrenAreNotSplitPoints(nodes: seq<Node>, level: Depth)
    ensures var r := Sections(nodes, level);
      forall m, j :: 0 <= m < |r| && 0 <= j < |r[m].children| ==> !IsSplitPoint(r[m].children[j], level)
  {
    var r, cs := Sections(nodes, level), Cuts(nodes, level);
    assert cs == CutsFrom(nodes, level, NextSplit(nodes, level, 0, |nodes|), |nodes|);
    CutsFromChildren(nodes, level, NextSplit(nodes, level, 0, |nodes|), |nodes|);
    forall m, j | 0 <= m < |r| && 0 <= j < |r[m].children|
      ensures !IsSplitPoint(r[m].children[j], level)
    {
      assert r[m].children == cs[m].children;
    }
  }

  /** Section m holds the children of the m-th cut, and the cuts, heading
      node followed by children, give back the input from the first heading
      of the requested depth onward: no node after that point is lost,
      duplicated or reordered. */
  lemma FlattenRestoresSuffix(nodes: seq<Node>, level: Depth)
    ensures var r, cs := Sections(nodes, level), Cuts(nodes, level);
      |r| == |cs| && (forall m :: 0 <= m < |r| ==> r[m].children == cs[m].children)
    ensures Flatten(Cuts(nodes, level)) == nodes[NextSplit(nodes, level, 0, |nodes|)..]
  {
    CutsFromFlatten(nodes, level, NextSplit(nodes, level, 0, |nodes|), |nodes|);
  }

  /** Once the prefix has produced no cuts, after any `h` further nodes the
      cuts are those of the same `h` nodes alone. */
  lemma {:induction false} CutsUpToAfterPrefix(prefix: seq<Node>, nodes: seq<Node>, level: Depth, h: nat)
    requires h <= |nodes|
    requires CutsUpTo(prefix + nodes, level, |prefix|) == []
    ensures CutsUpTo(prefix + nodes, level, |prefix| + h) == CutsUpTo(nodes, level, h)
  {
    if h == 0 {
      assert CutsUpTo(nodes, level, 0) == [];
    } else {
      CutsUpToAfterPrefix(prefix, nodes, level, h - 1);
      CutsUpToAlignedStep(prefix + nodes, nodes, level, |prefix| + (h - 1), h - 1);
    }
  }

  /** Equal cuts so far and equal next nodes give equal cuts after it. */
  lemma CutsUpToAlignedStep(all: seq<Node>, nodes: seq<Node>, level: Depth, p: nat, q: nat)
    requires p < |all| && q < |nodes| && all[p] == nodes[q]
    requires CutsUpTo(all, level, p) == CutsUpTo(nodes, level, q)
    ensures CutsUpTo(all, level, p + 1) == CutsUpTo(nodes, level, q + 1)
  {
    CutsUpToExtend(all, level, p);
    CutsUpToExtend(nodes, level, q);
  }

  /** The prefix alone is cut into nothing. */
  lemma PrefixHasNoCuts(prefix: seq<Node>, nodes: seq<Node>, level: Depth)
    requires forall i :: 0 <= i < |prefix| ==> !IsSplitPoint(prefix[i], level)
    ensures CutsUpTo(prefix + nodes, level, |prefix|) == []
  {
    var all := prefix + nodes;
    assert forall j :: 0 <= j < |prefix| ==> all[j] == prefix[j];
    NextSplitSkip(all, level, 0, |prefix|, |prefix|);
  }

  /** Nodes before the first heading of the requested depth contribute
      nothing: prepending them leaves the result unchanged. */
  lemma LeadingNodesDropped(prefix: seq<Node>, nodes: seq<Node>, level: Depth)
    requires forall i :: 0 <= i < |prefix| ==> !IsSplitPoint(prefix[i], level)
    ensures Sections(prefix + nodes, level) == Sections(nodes, level)
  {
    PrefixHasNoCuts(prefix, nodes, level);
    CutsUpToAfterPrefix(prefix, nodes, level, |nodes|);
  }

  /** A level-2 split: a deeper (level 3) and a shallower (level 1) heading
      both end up as children of the open section. The doc comment of
      `splitByHeading` suggests a shallower heading would also end it. */
  lemma OtherDepthsDoNotSplit()
    ensures var a, b, c := Heading(2, "A"), Heading(3, "B"), Heading(1, "C");
      Sections([Other("intro"), a, b, c], 2) == [Section("A", [b, c])]
  {
    var a, b, c := Heading(2, "A"), Heading(3, "B"), Heading(1, "C");
    var nodes := [Other("intro"), a, b, c];
    JsText.TrimKeepsTrimmed("A");
    assert NextSplit(nodes, 2, 0, 4) == 1;
    assert NextSplit(nodes, 2, 2, 4) == 4;
    assert nodes[2..4] == [b, c];
    assert Cuts(nodes, 2) == [Cut(a, [b, c])] + CutsFrom(nodes, 2, 4, 4);
  }
}
