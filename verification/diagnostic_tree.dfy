/** The diagnostic-tree view: every node becomes one row, drawn at its depth
    with an indent of 24 pixels per level, a connector before nodes that have
    children, and its children below it, in order, one level deeper. The
    rows are listed in the order they appear on the page (pre-order). */
module DiagnosticTree {
  import opened JsRuntime
  import opened Types
  import opened StatusVisuals

  /** One rendered node: what the row shows and where. The badge is drawn
      from `status` (see `Badge`). `connector` is the connector span
      (present only on a node with children) and `childMarginPx` the left
      margin of the children's container (present only when there is one). */
  datatype Row = Row(
    name: string,
    message: string,
    status: VerificationStatus,
    level: nat,
    indentPx: int,
    connector: Option<string>,
    childMarginPx: Option<int>)

  /** `node.children && node.children.length > 0`. */
  predicate HasChildren(n: DiagnosticTreeNode) {
    n.children.Listed? && |n.children.nodes| > 0
  }

  /** The row of `node` drawn at `level`. */
  function NodeRow(n: DiagnosticTreeNode, level: nat): (row: Row)
    ensures row.name == n.name && row.message == n.message && row.status == n.status && row.level == level
    ensures row.connector.Some? <==> HasChildren(n)
    ensures row.connector == Some("└─") <==> HasChildren(n) && level > 0
    ensures row.childMarginPx.Some? <==> HasChildren(n)
  {
    Row(n.name, n.message, n.status, level, level * 24,
        if HasChildren(n) then Some(if level > 0 then "└─" else "") else None,
        if HasChildren(n) then Some(level * 24 + 10) else None)
  }

  /** `getStatusVisuals(node.status)`: the icon and colour of a row. */
  function Badge(row: Row): (v: Visual)
    ensures v.color == Green <==> row.status == Passed
    ensures v.color == Red <==> row.status == Failed
    ensures v.color != Yellow
  {
    StatusVisuals.StatusVisuals(row.status);
    Visuals(StatusName(row.status))
  }

  /** `<TreeNode node={n} level={level} />`: the node's own row, then, when it
      has children, the rows of each child at `level + 1`. Every node of the
      tree gets exactly one row. */
  function Render(n: DiagnosticTreeNode, level: nat): (rows: seq<Row>)
    ensures |rows| == TreeSize(n)
    ensures rows[0] == NodeRow(n, level)
    decreases n
  {
    [NodeRow(n, level)] + (if HasChildren(n) then RenderForest(n.children.nodes, level + 1) else [])
  }

  /** `children.map(child => <TreeNode node={child} level={level} />)`. */
  function RenderForest(cs: seq<DiagnosticTreeNode>, level: nat): (rows: seq<Row>)
    ensures |rows| == ForestSize(cs)
    decreases cs
  {
    if cs == [] then [] else Render(cs[0], level) + RenderForest(cs[1..], level)
  }

  /** What holds of every row on the page: the indent is 24 pixels per level,
      the `└─` connector never appears at the root level, and a children's
      container sits 10 pixels right of its parent's indent. */
  predicate WellDrawn(row: Row) {
    && row.indentPx == row.level * 24
    && (row.connector == Some("└─") ==> row.level > 0)
    && (row.connector == Some("") ==> row.level == 0)
    && (row.childMarginPx.Some? ==> row.childMarginPx.value == row.indentPx + 10)
    && (row.connector.Some? <==> row.childMarginPx.Some?)
  }

  /** Every row of a node's rendering is well drawn, and every row after the
      first (its descendants) is deeper than the node. */
  lemma {:induction false} RenderRows(n: DiagnosticTreeNode, level: nat)
    ensures forall i :: 0 < i < |Render(n, level)| ==> Render(n, level)[i].level > level
    ensures forall i :: 0 <= i < |Render(n, level)| ==> WellDrawn(Render(n, level)[i])
    decreases n
  {
    var rows := Render(n, level);
    if HasChildren(n) {
      var f := RenderForest(n.children.nodes, level + 1);
      RenderForestRows(n.children.nodes, level + 1);
      assert rows == [NodeRow(n, level)] + f;
      forall i | 0 < i < |rows| ensures rows[i] == f[i - 1] {}
    } else {
      assert rows == [NodeRow(n, level)];
    }
  }

  /** Every row of a list of subtrees rendered at `level` is well drawn and
      at least that deep. */
  lemma {:induction false} RenderForestRows(cs: seq<DiagnosticTreeNode>, level: nat)
    ensures forall i :: 0 <= i < |RenderForest(cs, level)| ==> RenderForest(cs, level)[i].level >= level
    ensures forall i :: 0 <= i < |RenderForest(cs, level)| ==> WellDrawn(RenderForest(cs, level)[i])
    decreases cs
  {
    if cs != [] {
      var h, t := Render(cs[0], level), RenderForest(cs[1..], level);
      RenderRows(cs[0], level);
      RenderForestRows(cs[1..], level);
      assert RenderForest(cs, level) == h + t;
      forall i | |h| <= i < |h| + |t| ensures (h + t)[i] == t[i - |h|] {}
    }
  }

  /** The whole view: the root is drawn at level 0. A null tree has no
      rendering: the view reads `status` of the root without a null check. */
  function RenderTree(tree: Option<DiagnosticTreeNode>): (rows: Option<seq<Row>>)
    ensures rows.None? <==> tree.None?
    ensures rows.Some? ==> |rows.value| == TreeSize(tree.value) && rows.value[0].level == 0
    ensures rows.Some? ==> rows.value == Render(tree.value, 0)
  {
    match tree
    case None => None
    case Some(root) => Some(Render(root, 0))
  }

  lemma {:induction false} ForestSizeAppend(a: seq<DiagnosticTreeNode>, b: seq<DiagnosticTreeNode>)
    ensures ForestSize(a + b) == ForestSize(a) + ForestSize(b)
    decreases |a|
  {
    if a != [] {
      assert (a + b)[1..] == a[1..] + b;
      ForestSizeAppend(a[1..], b);
    } else {
      assert a + b == b;
    }
  }

  /** A block of rows inside the second part of a list, seen from the
      whole list, is shifted by the length of the first part. */
  lemma ShiftBlock(full: seq<Row>, a: seq<Row>, b: seq<Row>, off: nat, size: nat, block: seq<Row>)
    requires full == a + b && off + size <= |b| && b[off..off + size] == block
    ensures |a| + off + size <= |full| && full[|a| + off..|a| + off + size] == block
  {
    assert full[|a| + off..|a| + off + size] == b[off..off + size];
  }

  lemma SingletonForest(n: DiagnosticTreeNode)
    ensures ForestSize([n]) == TreeSize(n)
  {
    assert [n][1..] == [];
  }

  /** The first i subtrees are the first one followed by the next i-1. */
  lemma PrefixSize(cs: seq<DiagnosticTreeNode>, i: nat)
    requires 0 < i <= |cs|
    ensures ForestSize(cs[..i]) == TreeSize(cs[0]) + ForestSize(cs[1..][..i - 1])
  {
    var before := cs[1..][..i - 1];
    assert cs[..i] == [cs[0]] + before;
    ForestSizeAppend([cs[0]], before);
    SingletonForest(cs[0]);
  }

  lemma BlockStart(rows: seq<Row>, start: nat, block: seq<Row>)
    requires start + |block| <= |rows| && rows[start..start + |block|] == block && block != []
    ensures rows[start] == block[0]
  {
    assert rows[start..start + |block|][0] == rows[start];
  }

  /** Child i's rows within a rendered list of subtrees. */
  predicate PlacedAt(cs: seq<DiagnosticTreeNode>, level: nat, i: nat)
    requires i < |cs|
  {
    && ForestSize(cs[..i]) + TreeSize(cs[i]) <= |RenderForest(cs, level)|
    && RenderForest(cs, level)[ForestSize(cs[..i])..ForestSize(cs[..i]) + TreeSize(cs[i])]
       == Render(cs[i], level)
  }

  lemma PlacedFirst(cs: seq<DiagnosticTreeNode>, level: nat)
    requires 0 < |cs|
    ensures PlacedAt(cs, level, 0)
  {
    var full := RenderForest(cs, level);
    var head := Render(cs[0], level);
    assert full == head + RenderForest(cs[1..], level);
    assert ForestSize(cs[..0]) == 0 by { assert cs[..0] == []; }
    assert full[0..|head|] == head;
  }

  /** Where child i-1 sits in the list without its first subtree, child i
      sits in the whole list, after the rows of that first subtree. */
  lemma PlacedNext(cs: seq<DiagnosticTreeNode>, level: nat, i: nat)
    requires 0 < i < |cs| && PlacedAt(cs[1..], level, i - 1)
    ensures PlacedAt(cs, level, i)
  {
    var head := Render(cs[0], level);
    var tail := RenderForest(cs[1..], level);
    var off := ForestSize(cs[1..][..i - 1]);
    var block := Render(cs[i], level);
    assert RenderForest(cs, level) == head + tail;
    assert off + |block| <= |tail| && tail[off..off + |block|] == block by {
      assert cs[1..][i - 1] == cs[i];
    }
    assert ForestSize(cs[..i]) == |head| + off by {
      PrefixSize(cs, i);
    }
    assert |block| == TreeSize(cs[i]);
    PlaceShift(RenderForest(cs, level), head, tail, ForestSize(cs[..i]), off, block);
  }

  lemma PlaceShift(full: seq<Row>, head: seq<Row>, tail: seq<Row>, start: nat, off: nat, block: seq<Row>)
    requires full == head + tail && start == |head| + off
    requires off + |block| <= |tail| && tail[off..off + |block|] == block
    ensures start + |block| <= |full| && full[start..start + |block|] == block
  {
    ShiftBlock(full, head, tail, off, |block|, block);
  }

  /** Child i's subtree occupies the rows right after those of children
      0 .. i-1: a contiguous block, in the children's order. */
  lemma {:induction false} ForestPlacement(cs: seq<DiagnosticTreeNode>, level: nat, i: nat)
    requires i < |cs|
    ensures PlacedAt(cs, level, i)
    decreases i
  {
    if i == 0 {
      PlacedFirst(cs, level);
    } else {
      ForestPlacement(cs[1..], level, i - 1);
      PlacedNext(cs, level, i);
    }
  }

  /** The row at which child i of `n` starts: after the node's own row and
      the subtrees of children 0 .. i-1. */
  function ChildStart(n: DiagnosticTreeNode, i: nat): nat
    requires HasChildren(n) && i < |n.children.nodes|
  {
    1 + ForestSize(n.children.nodes[..i])
  }

  /** Below a node with children, child i is drawn one level deeper, starting
      at row 1 + (sizes of the subtrees of children 0 .. i-1). */
  lemma ChildPlacement(n: DiagnosticTreeNode, level: nat, i: nat)
    requires HasChildren(n) && i < |n.children.nodes|
    ensures ChildStart(n, i) + TreeSize(n.children.nodes[i]) <= |Render(n, level)|
    ensures Render(n, level)[ChildStart(n, i)..ChildStart(n, i) + TreeSize(n.children.nodes[i])]
         == Render(n.children.nodes[i], level + 1)
    ensures Render(n, level)[ChildStart(n, i)] == NodeRow(n.children.nodes[i], level + 1)
  {
    var cs := n.children.nodes;
    var block := Render(cs[i], level + 1);
    var forest := RenderForest(cs, level + 1);
    var off := ForestSize(cs[..i]);
    assert off + |block| <= |forest| && forest[off..off + |block|] == block by {
      ForestPlacement(cs, level + 1, i);
    }
    assert Render(n, level) == [NodeRow(n, level)] + forest;
    assert |block| == TreeSize(cs[i]) && block[0] == NodeRow(cs[i], level + 1);
    ChildBlock(Render(n, level), NodeRow(n, level), forest, off, ChildStart(n, i), TreeSize(cs[i]), block);
  }

  /** A block inside the rows below a first row, seen from the whole list. */
  lemma ChildBlock(rows: seq<Row>, first: Row, forest: seq<Row>, off: nat, start: nat, size: nat, block: seq<Row>)
    requires rows == [first] + forest && start == 1 + off && size == |block|
    requires off + |block| <= |forest| && forest[off..off + |block|] == block && block != []
    ensures start + size <= |rows| && rows[start..start + size] == block
    ensures rows[start] == block[0]
  {
    ShiftBlock(rows, [first], forest, off, |block|, block);
    BlockStart(rows, start, block);
  }

  /** A node without children (absent, null or an empty list) is one row. */
  lemma LeafIsOneRow(n: DiagnosticTreeNode, level: nat)
    requires !HasChildren(n)
    ensures Render(n, level) == [NodeRow(n, level)]
  {
  }
}
