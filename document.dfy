/**
 * The part of the rich-text editor's state that the slash menu, its trigger
 * detector and the sync engine look at: a sequence of nodes in document
 * order and a selection over them.  The editor library itself is outside
 * the model; its two primitives that the menu uses, splicing a text node and
 * inserting a node at the selection, are given here as the editor class's
 * methods, each specified by a function on editor states.
 */
module Document {

  /** A node in document order.  Only text nodes carry characters directly. */
  datatype Node =
    | Text(text: string)
    | Code(language: string)
    | Link(url: string, children: seq<Node>)
    | Element(kind: string)

  /** A selection end point: the index of a node and an offset inside it. */
  datatype Point = Point(node: nat, offset: nat)

  datatype Selection =
    | NoSelection
    | NodeSelection(node: nat)
    | RangeSelection(anchor: Point, focus: Point)
  {
    /** A range selection is collapsed when its anchor and focus coincide. */
    predicate IsCollapsed()
      requires RangeSelection?
    {
      anchor == focus
    }
  }

  datatype EditorState = EditorState(nodes: seq<Node>, selection: Selection)

  /** A point refers to a live node, and inside a text node it lies within the text. */
  predicate ValidPoint(nodes: seq<Node>, p: Point)
  {
    p.node < |nodes| && (nodes[p.node].Text? ==> p.offset <= |nodes[p.node].text|)
  }

  /** The editor keeps its selection on live nodes. */
  predicate WellFormed(s: EditorState)
  {
    match s.selection
    case NoSelection => true
    case NodeSelection(k) => k < |s.nodes|
    case RangeSelection(a, f) => ValidPoint(s.nodes, a) && ValidPoint(s.nodes, f)
  }

  /** The characters of a sequence of nodes, read in document order. */
  function DocText(ns: seq<Node>): string
    decreases ns
  {
    if ns == [] then ""
    else
      var head := match ns[0]
        case Text(t) => t
        case Link(_, children) => DocText(children)
        case _ => "";
      head + DocText(ns[1..])
  }

  /** The characters of one node. */
  function NodeText(n: Node): string
  {
    DocText([n])
  }

  lemma {:induction false} DocTextAppend(a: seq<Node>, b: seq<Node>)
    ensures DocText(a + b) == DocText(a) + DocText(b)
    decreases a
  {
    if a == [] {
      assert a + b == b;
    } else {
      assert (a + b)[0] == a[0];
      assert (a + b)[1..] == a[1..] + b;
      DocTextAppend(a[1..], b);
    }
  }

  /** Where, in the document's characters, the anchor of a range selection lies. */
  function CursorPos(s: EditorState): nat
    requires WellFormed(s) && s.selection.RangeSelection?
  {
    var a := s.selection.anchor;
    if s.nodes[a.node].Text? then |DocText(s.nodes[..a.node])| + a.offset
    else |DocText(s.nodes[..a.node + 1])|
  }

  /**
   * The state after replacing `deleteCount` characters at `offset` in the text
   * node `k` by `inserted`, with the selection moved to just after the
   * inserted characters (the editor's splice with selection moving on).
   */
  function Spliced(s: EditorState, k: nat, offset: nat, deleteCount: nat, inserted: string): (r: EditorState)
    requires k < |s.nodes| && s.nodes[k].Text? && offset + deleteCount <= |s.nodes[k].text|
    ensures WellFormed(r)
    ensures |r.nodes| == |s.nodes| && r.nodes[k].Text?
    ensures r.nodes[k].text == s.nodes[k].text[..offset] + inserted + s.nodes[k].text[offset + deleteCount..]
    ensures forall j :: 0 <= j < |s.nodes| && j != k ==> r.nodes[j] == s.nodes[j]
  {
    var t := s.nodes[k].text;
    var cursor := Point(k, offset + |inserted|);
    EditorState(s.nodes[k := Text(t[..offset] + inserted + t[offset + deleteCount..])],
                RangeSelection(cursor, cursor))
  }

  /** The index the inserted node takes in `InsertedAt`. */
  function InsertIndex(s: EditorState): nat
    requires WellFormed(s) && !s.selection.NoSelection?
  {
    match s.selection
    case NodeSelection(k) => k + 1
    case RangeSelection(a, _) => a.node + 1
  }

  /**
   * The state after inserting `n` at the selection.  At a text anchor the
   * text node is split at the anchor offset and `n` goes between the halves,
   * with the cursor placed at the start of the right half; at any other
   * anchor, and under a node selection, `n` goes right after the anchored
   * node and becomes the selected node.
   */
  function InsertedAt(s: EditorState, n: Node): (r: EditorState)
    requires WellFormed(s) && !s.selection.NoSelection?
    ensures WellFormed(r)
  {
    match s.selection
    case NodeSelection(k) =>
      EditorState(s.nodes[..k + 1] + [n] + s.nodes[k + 1..], NodeSelection(k + 1))
    case RangeSelection(a, _) =>
      if s.nodes[a.node].Text? then
        var t := s.nodes[a.node].text;
        var cursor := Point(a.node + 2, 0);
        EditorState(s.nodes[..a.node] + [Text(t[..a.offset]), n, Text(t[a.offset..])] + s.nodes[a.node + 1..],
                    RangeSelection(cursor, cursor))
      else
        EditorState(s.nodes[..a.node + 1] + [n] + s.nodes[a.node + 1..], NodeSelection(a.node + 1))
  }

  /**
   * Inserting a node adds it at `InsertIndex` and splices its characters into
   * the document's characters at the insertion point; nothing else changes.
   */
  lemma InsertedAtText(s: EditorState, n: Node)
    requires WellFormed(s) && !s.selection.NoSelection?
    ensures var r := InsertedAt(s, n);
      var p := if s.selection.RangeSelection? then CursorPos(s) else |DocText(s.nodes[..s.selection.node + 1])|;
      && InsertIndex(s) < |r.nodes| && r.nodes[InsertIndex(s)] == n
      && p <= |DocText(s.nodes)|
      && DocText(r.nodes) == DocText(s.nodes)[..p] + NodeText(n) + DocText(s.nodes)[p..]
    ensures InsertFrame(s, InsertedAt(s, n).nodes, n)
  {
    InsertedAtFrame(s, n);
    match s.selection
    case NodeSelection(k) =>
      InsertedAfter(s, n, k);
    case RangeSelection(a, _) =>
      if s.nodes[a.node].Text? {
        InsertedInText(s, n, a);
      } else {
        InsertedAfter(s, n, a.node);
      }
  }

  /** The cases of `InsertedAt` that put `n` right after node `k`. */
  lemma InsertedAfter(s: EditorState, n: Node, k: nat)
    requires WellFormed(s)
    requires s.selection == NodeSelection(k) ||
      (s.selection.RangeSelection? && s.selection.anchor.node == k && !s.nodes[k].Text?)
    ensures InsertIndex(s) == k + 1
    ensures s.selection.RangeSelection? ==> CursorPos(s) == |DocText(s.nodes[..k + 1])|
    ensures var r := InsertedAt(s, n);
      var p := |DocText(s.nodes[..k + 1])|;
      && k + 1 < |r.nodes| && r.nodes[k + 1] == n
      && p <= |DocText(s.nodes)|
      && DocText(r.nodes) == DocText(s.nodes)[..p] + NodeText(n) + DocText(s.nodes)[p..]
  {
    assert InsertedAt(s, n).nodes == s.nodes[..k + 1] + [n] + s.nodes[k + 1..];
    SplitAfter(s.nodes, k + 1, n);
  }

  /** The case of `InsertedAt` that splits the text node under the anchor `a`. */
  lemma InsertedInText(s: EditorState, n: Node, a: Point)
    requires WellFormed(s) && s.selection.RangeSelection? && s.selection.anchor == a
    requires s.nodes[a.node].Text?
    ensures InsertIndex(s) == a.node + 1 && CursorPos(s) == |DocText(s.nodes[..a.node])| + a.offset
    ensures var r := InsertedAt(s, n);
      var p := |DocText(s.nodes[..a.node])| + a.offset;
      && a.node + 1 < |r.nodes| && r.nodes[a.node + 1] == n
      && p <= |DocText(s.nodes)|
      && DocText(r.nodes) == DocText(s.nodes)[..p] + NodeText(n) + DocText(s.nodes)[p..]
  {
    var t := s.nodes[a.node].text;
    var split := s.nodes[..a.node] + [Text(t[..a.offset]), n, Text(t[a.offset..])] + s.nodes[a.node + 1..];
    assert InsertedAt(s, n).nodes == split;
    assert split[a.node + 1] == n;
    SplitText(s.nodes, a.node, a.offset, n);
  }

  /**
   * `r` is the node sequence of `s` with `n` inserted at the selection, node
   * by node: the nodes before the anchored (or selected) node `k` keep their
   * places, `n` follows `k`, and the nodes after `k` keep their order, shifted
   * by the nodes added.  A text node under a range anchor is split at the
   * anchor offset into the two halves around `n`; any other node `k` stays.
   */
  predicate InsertFrame(s: EditorState, r: seq<Node>, n: Node)
    requires WellFormed(s) && !s.selection.NoSelection?
  {
    var k := InsertIndex(s) - 1;
    var split := s.selection.RangeSelection? && s.nodes[k].Text?;
    var d := if split then 2 else 1;
    && KeptAround(s.nodes, r, k, d)
    && r[k + 1] == n
    && (!split ==> r[k] == s.nodes[k])
    && (split ==>
          var t, o := s.nodes[k].text, s.selection.anchor.offset;
          r[k] == Text(t[..o]) && r[k + 2] == Text(t[o..]))
  }

  /**
   * `r` is `ns` with `d` nodes added after node `k - 1` and node `k` left
   * out of the comparison: the nodes before `k` keep their places and those
   * after it keep their order, `d` places further on.
   */
  predicate KeptAround(ns: seq<Node>, r: seq<Node>, k: nat, d: nat)
  {
    && |r| == |ns| + d
    && (forall j :: 0 <= j < k && j < |ns| ==> r[j] == ns[j])
    && (forall j :: k < j < |ns| ==> r[j + d] == ns[j])
  }

  /** Inserting keeps every other node, in order: nothing is dropped, duplicated or moved. */
  lemma InsertedAtFrame(s: EditorState, n: Node)
    requires WellFormed(s) && !s.selection.NoSelection?
    ensures InsertFrame(s, InsertedAt(s, n).nodes, n)
  {
    match s.selection
    case NodeSelection(k) =>
      FrameAfter(s, n, k);
    case RangeSelection(a, _) =>
      if s.nodes[a.node].Text? {
        FrameSplit(s, n, a);
      } else {
        FrameAfter(s, n, a.node);
      }
  }

  /** The frame in the cases of `InsertedAt` that put `n` right after node `k`. */
  lemma FrameAfter(s: EditorState, n: Node, k: nat)
    requires WellFormed(s)
    requires s.selection == NodeSelection(k) ||
      (s.selection.RangeSelection? && s.selection.anchor.node == k && !s.nodes[k].Text?)
    ensures InsertFrame(s, InsertedAt(s, n).nodes, n)
  {
    assert InsertIndex(s) == k + 1;
    assert InsertedAt(s, n).nodes == s.nodes[..k + 1] + [n] + s.nodes[k + 1..];
    AfterFrame(s.nodes, k, n);
  }

  /** The frame in the case of `InsertedAt` that splits the text node under the anchor `a`. */
  lemma FrameSplit(s: EditorState, n: Node, a: Point)
    requires WellFormed(s) && s.selection.RangeSelection? && s.selection.anchor == a
    requires s.nodes[a.node].Text?
    ensures InsertFrame(s, InsertedAt(s, n).nodes, n)
  {
    var t := s.nodes[a.node].text;
    var m := [Text(t[..a.offset]), n, Text(t[a.offset..])];
    assert InsertIndex(s) == a.node + 1;
    assert InsertedAt(s, n).nodes == s.nodes[..a.node] + m + s.nodes[a.node + 1..];
    SplitFrame(s.nodes, a.node, m);
  }

  /** Node by node, `ns` with `n` put right after node `k`. */
  lemma AfterFrame(ns: seq<Node>, k: nat, n: Node)
    requires k < |ns|
    ensures var r := ns[..k + 1] + [n] + ns[k + 1..];
      && KeptAround(ns, r, k, 1) && r[k] == ns[k] && r[k + 1] == n
  {
  }

  /** Node by node, `ns` with node `k` replaced by the three nodes `m`. */
  lemma SplitFrame(ns: seq<Node>, k: nat, m: seq<Node>)
    requires k < |ns| && |m| == 3
    ensures var r := ns[..k] + m + ns[k + 1..];
      && KeptAround(ns, r, k, 2) && r[k] == m[0] && r[k + 1] == m[1] && r[k + 2] == m[2]
  {
  }

  /** Splitting text node `k` at `offset` around `n` splices the characters of `n` in at that offset. */
  lemma {:induction false} SplitText(ns: seq<Node>, k: nat, offset: nat, n: Node)
    requires k < |ns| && ns[k].Text? && offset <= |ns[k].text|
    ensures var t := ns[k].text;
      var r := ns[..k] + [Text(t[..offset]), n, Text(t[offset..])] + ns[k + 1..];
      var p := |DocText(ns[..k])| + offset;
      p <= |DocText(ns)| &&
      DocText(r) == DocText(ns)[..p] + NodeText(n) + DocText(ns)[p..]
  {
    var t := ns[k].text;
    var before, after := ns[..k], ns[k + 1..];
    var l, m := t[..offset], t[offset..];
    Around(ns, k, Text(t));
    TextNodeText(t);
    DocText3(before, [Text(l), n, Text(m)], after);
    Middle(l, n, m);
    assert t == l + m;
    Assemble(DocText(ns), DocText(before), t, DocText(after), l, m, NodeText(n));
  }

  /** Inserting `x` into `b + (l + m) + a` right after `l`. */
  lemma Assemble(w: string, b: string, t: string, a: string, l: string, m: string, x: string)
    requires w == b + t + a && t == l + m
    ensures |b| + |l| <= |w|
    ensures w[..|b| + |l|] + x + w[|b| + |l|..] == b + (l + x + m) + a
  {
    var p := |b| + |l|;
    assert w[..p] == b + l;
    assert w[p..] == m + a;
  }

  /** The characters of `ns` are those before node `k`, then node `k`'s, then those after it. */
  lemma Around(ns: seq<Node>, k: nat, x: Node)
    requires k < |ns| && ns[k] == x
    ensures DocText(ns) == DocText(ns[..k]) + DocText([x]) + DocText(ns[k + 1..])
  {
    Decompose(ns, k);
    Joined(ns, ns[..k], x, ns[k + 1..]);
  }

  lemma Decompose(ns: seq<Node>, k: nat)
    requires k < |ns|
    ensures ns == ns[..k] + [ns[k]] + ns[k + 1..]
  {
  }

  lemma Joined(ns: seq<Node>, a: seq<Node>, x: Node, c: seq<Node>)
    requires ns == a + [x] + c
    ensures DocText(ns) == DocText(a) + DocText([x]) + DocText(c)
  {
    DocTextAppend(a + [x], c);
    DocTextAppend(a, [x]);
  }

  /** Two node lists that differ only in text node `k` differ only in that node's characters. */
  lemma ReplacedText(ns: seq<Node>, rs: seq<Node>, k: nat, t: string, u: string)
    requires k < |ns| == |rs| && ns[k] == Text(t) && rs[k] == Text(u)
    requires forall j :: 0 <= j < |ns| && j != k ==> rs[j] == ns[j]
    ensures DocText(ns) == DocText(ns[..k]) + t + DocText(ns[k + 1..])
    ensures DocText(rs) == DocText(ns[..k]) + u + DocText(ns[k + 1..])
  {
    Around(ns, k, Text(t));
    Around(rs, k, Text(u));
    assert rs[..k] == ns[..k];
    assert rs[k + 1..] == ns[k + 1..];
    TextNodeText(t);
    TextNodeText(u);
  }

  lemma Middle(l: string, n: Node, m: string)
    ensures DocText([Text(l), n, Text(m)]) == l + NodeText(n) + m
  {
    assert [Text(l), n, Text(m)] == [Text(l)] + [n] + [Text(m)];
    DocText3([Text(l)], [n], [Text(m)]);
    TextNodeText(l);
    TextNodeText(m);
  }

  lemma TextNodeText(t: string)
    ensures DocText([Text(t)]) == t
  {
    assert [Text(t)][1..] == [];
  }

  lemma CodeNodeText(language: string)
    ensures NodeText(Code(language)) == ""
  {
    assert [Code(language)][1..] == [];
    assert DocText([Code(language)][1..]) == "";
  }

  lemma DocText3(a: seq<Node>, b: seq<Node>, c: seq<Node>)
    ensures DocText(a + b + c) == DocText(a) + DocText(b) + DocText(c)
  {
    DocTextAppend(a + b, c);
    DocTextAppend(a, b);
  }

  /** Splicing `n` in after the first `i` nodes splices its characters in after theirs. */
  lemma SplitAfter(ns: seq<Node>, i: nat, n: Node)
    requires i <= |ns|
    ensures |DocText(ns[..i])| <= |DocText(ns)|
    ensures var r := ns[..i] + [n] + ns[i..];
      var p := |DocText(ns[..i])|;
      i < |r| && r[i] == n &&
      DocText(r) == DocText(ns)[..p] + NodeText(n) + DocText(ns)[p..]
  {
    assert ns == ns[..i] + ns[i..];
    DocTextAppend(ns[..i], ns[i..]);
    DocTextAppend(ns[..i] + [n], ns[i..]);
    DocTextAppend(ns[..i], [n]);
  }

  /**
   * The editor.  Its update batches change the node sequence and the
   * selection in place; the selection always stays on live nodes.
   */
  class Editor {
    var nodes: seq<Node>
    var selection: Selection

    function Snapshot(): EditorState
      reads this
    {
      EditorState(nodes, selection)
    }

    ghost predicate Valid()
      reads this
    {
      WellFormed(Snapshot())
    }

    constructor (s: EditorState)
      requires WellFormed(s)
      ensures Valid() && Snapshot() == s
    {
      nodes := s.nodes;
      selection := s.selection;
    }

    /** Splices the text node `k` and moves the cursor to the end of the inserted text. */
    method SpliceText(k: nat, offset: nat, deleteCount: nat, inserted: string)
      requires Valid()
      requires k < |nodes| && nodes[k].Text? && offset + deleteCount <= |nodes[k].text|
      modifies this
      ensures Valid()
      ensures Snapshot() == Spliced(old(Snapshot()), k, offset, deleteCount, inserted)
    {
      var t := nodes[k].text;
      nodes := nodes[k := Text(t[..offset] + inserted + t[offset + deleteCount..])];
      var cursor := Point(k, offset + |inserted|);
      selection := RangeSelection(cursor, cursor);
    }

    /**
     * Clears the root and appends `children` to it.  The old selection pointed
     * into the removed nodes, so none is left.
     */
    method ReplaceRoot(children: seq<Node>)
      modifies this
      ensures Valid()
      ensures Snapshot() == EditorState(children, NoSelection)
    {
      nodes := [];
      nodes := nodes + children;
      selection := NoSelection;
    }

    /** Inserts one node at the selection. */
    method InsertNodes(n: Node)
      requires Valid() && !selection.NoSelection?
      modifies this
      ensures Valid()
      ensures Snapshot() == InsertedAt(old(Snapshot()), n)
    {
      match selection
      case NodeSelection(k) =>
        nodes := nodes[..k + 1] + [n] + nodes[k + 1..];
        selection := NodeSelection(k + 1);
      case RangeSelection(a, _) =>
        if nodes[a.node].Text? {
          var t := nodes[a.node].text;
          var cursor := Point(a.node + 2, 0);
          nodes := nodes[..a.node] + [Text(t[..a.offset]), n, Text(t[a.offset..])] + nodes[a.node + 1..];
          selection := RangeSelection(cursor, cursor);
        } else {
          nodes := nodes[..a.node + 1] + [n] + nodes[a.node + 1..];
          selection := NodeSelection(a.node + 1);
        }
    }
  }
}
