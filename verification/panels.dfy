/** Panels, the node-to-panel back-references, and the grid of panels
    (`Panel`, `panelNode` and `Workspace.panels` in lib/workspace.ts). */
module Panels {
  import opened Types

  /** A navigation history: never empty; index 0 is the panel's root. */
  type History = h: seq<NodeId> | |h| > 0 witness [""]

  /** A viewport. Its id is its identity: two panels are the same panel
      exactly when their ids agree. */
  datatype Panel = Panel(id: PanelId, history: History) {
    /** The first node of the history, which keys the panel's expansion scope. */
    function Root(): NodeId {
      history[0]
    }
  }

  /** The back-reference `node.panel` of every node displayed so far, kept as
      a side table from node ID to the panel that last displayed it. */
  type PanelRefs = map<NodeId, Panel>

  /** `new Panel(node)`: a panel with the given fresh id whose history is just
      the node, and the back-reference of the node pointed at it. */
  function NewPanel(id: PanelId, n: NodeId, refs: PanelRefs): (r: (Panel, PanelRefs))
    ensures r.0.id == id && r.0.history == [n] && r.0.Root() == n
    ensures r.1.Keys == refs.Keys + {n} && r.1[n] == r.0
    ensures forall m :: m in refs && m != n ==> r.1[m] == refs[m]
  {
    var p := Panel(id, [n]);
    (p, PanelNode(n, p, refs))
  }

  /** `panelNode(node, panel)`: the back-reference of the node now names the
      panel, whatever it named before; no other node's changes. */
  function PanelNode(n: NodeId, p: Panel, refs: PanelRefs): (r: PanelRefs)
    ensures r.Keys == refs.Keys + {n} && r[n] == p
    ensures forall m :: m in refs && m != n ==> r[m] == refs[m]
  {
    refs[n := p]
  }

  /** Back-references are last-writer-wins: of two writes for the same node
      only the later one is visible, and writes for different nodes commute. */
  lemma PanelNodeLastWriterWins(refs: PanelRefs, n: NodeId, m: NodeId, p: Panel, q: Panel)
    ensures PanelNode(n, q, PanelNode(n, p, refs)) == PanelNode(n, q, refs)
    ensures n != m ==> PanelNode(m, q, PanelNode(n, p, refs)) == PanelNode(n, p, PanelNode(m, q, refs))
  {
  }

  /** `panels[row][column]`. */
  type Grid = seq<seq<Panel>>

  /** `panels[0][0] = p`: column 0 of row 0 becomes p (row 0 grows to one
      panel when it was empty); every other position is unchanged. */
  function ReplacePrimary(grid: Grid, p: Panel): (r: Grid)
    requires |grid| > 0
    ensures |r| == |grid|
    ensures |r[0]| == if |grid[0]| == 0 then 1 else |grid[0]|
    ensures r[0][0] == p
    ensures forall j :: 1 <= j < |grid[0]| ==> r[0][j] == grid[0][j]
    ensures forall i :: 1 <= i < |grid| ==> r[i] == grid[i]
  {
    var row := if |grid[0]| == 0 then [p] else grid[0][0 := p];
    grid[0 := row]
  }

  /** `panels[0].push(p)`: row 0 grows by one, p last, the earlier panels of
      row 0 and every other row unchanged. */
  function AppendToFirstRow(grid: Grid, p: Panel): (r: Grid)
    requires |grid| > 0
    ensures |r| == |grid|
    ensures |r[0]| == |grid[0]| + 1 && r[0][|grid[0]|] == p
    ensures r[0][..|grid[0]|] == grid[0]
    ensures forall i :: 1 <= i < |grid| ==> r[i] == grid[i]
  {
    grid[0 := grid[0] + [p]]
  }

  /** The number of entries of the row that are the panel with the given id. */
  function Occurrences(row: seq<Panel>, id: PanelId): (c: nat)
    ensures c <= |row|
  {
    if |row| == 0 then 0
    else (if row[0].id == id then 1 else 0) + Occurrences(row[1..], id)
  }

  /** a is b with some entries left out, the rest in their original order. */
  predicate IsSubsequence(a: seq<Panel>, b: seq<Panel>)
    decreases |b|
  {
    if |a| == 0 then true
    else if |b| == 0 then false
    else if a[0] == b[0] then IsSubsequence(a[1..], b[1..])
    else IsSubsequence(a, b[1..])
  }

  /** `row.filter(p => p !== panel)`: the row without every entry that is the
      panel, the remaining panels in their original order. Its length drops
      by the number of entries it removes. */
  function WithoutPanel(row: seq<Panel>, id: PanelId): (r: seq<Panel>)
    ensures |r| == |row| - Occurrences(row, id)
  {
    if |row| == 0 then []
    else if row[0].id == id then WithoutPanel(row[1..], id)
    else [row[0]] + WithoutPanel(row[1..], id)
  }

  /** A panel survives the filter exactly when it was in the row and is not
      the one removed. */
  lemma {:induction false} WithoutPanelMembers(row: seq<Panel>, id: PanelId)
    ensures forall q :: q in WithoutPanel(row, id) <==> q in row && q.id != id
  {
    if |row| > 0 {
      WithoutPanelMembers(row[1..], id);
      assert forall q :: q in row <==> q == row[0] || q in row[1..];
    }
  }

  /** The filter keeps the surviving panels in their original order. */
  lemma {:induction false} WithoutPanelIsSubsequence(row: seq<Panel>, id: PanelId)
    ensures IsSubsequence(WithoutPanel(row, id), row)
  {
    if |row| > 0 {
      WithoutPanelIsSubsequence(row[1..], id);
      var r := WithoutPanel(row, id);
      if row[0].id == id {
        if |r| > 0 {
          // r's head survived the filter, so it is not the removed row[0]
          WithoutPanelMembers(row[1..], id);
          assert r[0] in r && r[0] != row[0];
        }
      } else {
        assert r[0] == row[0] && r[1..] == WithoutPanel(row[1..], id);
      }
    }
  }

  /** A row without a panel it does not hold is the row itself. */
  lemma {:induction false} WithoutAbsentPanel(row: seq<Panel>, id: PanelId)
    requires forall q :: q in row ==> q.id != id
    ensures WithoutPanel(row, id) == row
  {
    if |row| > 0 {
      assert forall q :: q in row[1..] ==> q in row;
      WithoutAbsentPanel(row[1..], id);
    }
  }

  /** Filtering a row filters its two halves. */
  lemma {:induction false} WithoutPanelConcat(a: seq<Panel>, b: seq<Panel>, id: PanelId)
    ensures WithoutPanel(a + b, id) == WithoutPanel(a, id) + WithoutPanel(b, id)
  {
    if |a| > 0 {
      assert (a + b)[1..] == a[1..] + b;
      WithoutPanelConcat(a[1..], b, id);
    } else {
      assert a + b == b;
    }
  }

  /** Closing a panel twice is closing it once. */
  lemma {:induction false} WithoutPanelIdempotent(row: seq<Panel>, id: PanelId)
    ensures WithoutPanel(WithoutPanel(row, id), id) == WithoutPanel(row, id)
  {
    WithoutPanelMembers(row, id);
    WithoutAbsentPanel(WithoutPanel(row, id), id);
  }

  /** Of two panels appended to a row that holds neither, removing the first
      leaves the row and the second. */
  lemma WithoutFirstOfTwo(row: seq<Panel>, first: Panel, second: Panel)
    requires forall q :: q in row ==> q.id != first.id
    requires second.id != first.id
    ensures WithoutPanel(row + [first] + [second], first.id) == row + [second]
  {
    WithoutPanelConcat(row + [first], [second], first.id);
    WithoutPanelConcat(row, [first], first.id);
    WithoutAbsentPanel(row, first.id);
    assert WithoutPanel([first], first.id) == [];
    assert WithoutPanel([second], first.id) == [second];
  }

  /** The closing of every panel of a grid by identity: each row filtered, the
      number of rows unchanged. */
  function RemovePanel(grid: Grid, id: PanelId): (r: Grid)
    ensures |r| == |grid|
    ensures forall i :: 0 <= i < |grid| ==> r[i] == WithoutPanel(grid[i], id)
  {
    seq(|grid|, i requires 0 <= i < |grid| => WithoutPanel(grid[i], id))
  }

  /** What the filter promises, for every row of a grid at once. */
  lemma RemovePanelRows(grid: Grid, id: PanelId)
    ensures forall i :: 0 <= i < |grid| ==>
              forall q :: q in RemovePanel(grid, id)[i] <==> q in grid[i] && q.id != id
    ensures forall i :: 0 <= i < |grid| ==> IsSubsequence(RemovePanel(grid, id)[i], grid[i])
  {
    var r := RemovePanel(grid, id);
    forall i | 0 <= i < |grid|
      ensures forall q :: q in r[i] <==> q in grid[i] && q.id != id
      ensures IsSubsequence(r[i], grid[i])
    {
      WithoutPanelMembers(grid[i], id);
      WithoutPanelIsSubsequence(grid[i], id);
    }
  }
}
