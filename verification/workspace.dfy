/** The session state of class `Workspace` in lib/workspace.ts: the panel
    grid, the expansion map, the node-to-panel back-references, the ambient
    context, and the remembered last-opened node. Every operation is a pure
    function from one session state to the next. */
module Workspaces {
  import opened Types
  import opened Panels
  import opened Expansion

  /** A field value of a command or menu context. */
  datatype Value =
    | Null                        // `null`, as in the initial `{node: null}`
    | NodeRef(node: NodeId)       // a node
    | NodeList(nodes: seq<NodeId>)
    | Opaque(repr: string)        // any other value a caller passes along

  /** A context object: field name to value. */
  type Context = map<string, Value>

  datatype Workspace = Workspace(
    context: Context,
    panels: Grid,
    expanded: Scopes,
    refs: PanelRefs,            // `node.panel` for every node displayed so far
    nextPanel: PanelId,         // the id the next new panel receives
    lastOpen: Option<NodeId>)   // the `localStorage` slot "lastopen"

  /** The invariant every reachable session keeps: row 0 exists; every panel
      in the grid or named by a back-reference has an id below `nextPanel`
      (so the next panel is new) and a root that has an expansion scope; and
      an id determines its panel, so comparing ids is comparing identities. */
  ghost predicate Valid(ws: Workspace) {
    && |ws.panels| > 0
    && (forall i, j :: 0 <= i < |ws.panels| && 0 <= j < |ws.panels[i]| ==>
          ws.panels[i][j].id < ws.nextPanel && ws.panels[i][j].Root() in ws.expanded)
    && (forall n :: n in ws.refs ==>
          ws.refs[n].id < ws.nextPanel && ws.refs[n].Root() in ws.expanded)
    && UniqueIds(Known(ws.panels, ws.refs))
  }

  /** Every panel of the grid and every panel named by a back-reference. */
  ghost function Known(g: Grid, refs: PanelRefs): set<Panel> {
    (set i, j | 0 <= i < |g| && 0 <= j < |g[i]| :: g[i][j]) + refs.Values
  }

  /** No two distinct panels of s share an id. */
  ghost predicate UniqueIds(s: set<Panel>) {
    forall p, q :: p in s && q in s && p.id == q.id ==> p == q
  }

  /** Whether panel p is anywhere in the grid. */
  ghost predicate Shown(ws: Workspace, p: Panel) {
    exists i, j :: 0 <= i < |ws.panels| && 0 <= j < |ws.panels[i]| && ws.panels[i][j] == p
  }

  /** The constructor: an ambient context `{node: null}`, one empty row and an
      empty expansion map, then `openNewPanel` of the root node. */
  function Init(root: NodeId): (ws: Workspace)
    ensures Valid(ws)
    ensures ws.panels == [[Panel(0, [root])]]
    ensures ws.expanded == map[root := map[]]
    ensures ws.refs == map[root := Panel(0, [root])]
    ensures ws.context == map["node" := Null] && ws.lastOpen == Some(root)
    ensures ws.nextPanel == 1
  {
    var empty := Workspace(map["node" := Null], [[]], map[], map[], 0, None);
    EmptyIsValid(empty);
    OpenNewPanelKeepsValid(empty, root);
    OpenRootPanel(empty, root);
    OpenNewPanel(empty, root)
  }

  /** The state before the constructor's `openNewPanel` already keeps the invariant. */
  lemma EmptyIsValid(empty: Workspace)
    requires empty.panels == [[]] && empty.refs == map[]
    ensures Valid(empty)
  {
    assert Known(empty.panels, empty.refs) == {};
  }

  /** The constructor's `openNewPanel(root)` on the empty session. */
  lemma OpenRootPanel(empty: Workspace, root: NodeId)
    requires empty.panels == [[]] && empty.refs == map[] && empty.expanded == map[]
    requires empty.nextPanel == 0
    ensures var ws := OpenNewPanel(empty, root);
      && ws.panels == [[Panel(0, [root])]]
      && ws.expanded == map[root := map[]]
      && ws.refs == map[root := Panel(0, [root])]
      && ws.context == empty.context && ws.lastOpen == Some(root)
      && ws.nextPanel == 1
  {
    var ws := OpenNewPanel(empty, root);
    assert ws.panels[0] == [Panel(0, [root])];
  }

  /** `open(n)`: the primary panel (row 0, column 0) is replaced by a new
      panel on n; n's scope is created only if it is missing. */
  function Open(ws: Workspace, n: NodeId): (r: Workspace)
    requires |ws.panels| > 0
    ensures |r.panels| == |ws.panels|
    ensures |r.panels[0]| == if |ws.panels[0]| == 0 then 1 else |ws.panels[0]|
    ensures r.panels[0][0].history == [n] && r.panels[0][0].id == ws.nextPanel
    ensures forall j :: 1 <= j < |ws.panels[0]| ==> r.panels[0][j] == ws.panels[0][j]
    ensures forall i :: 1 <= i < |ws.panels| ==> r.panels[i] == ws.panels[i]
    ensures r.expanded.Keys == ws.expanded.Keys + {n}
    ensures forall s :: s in ws.expanded ==> r.expanded[s] == ws.expanded[s]
    ensures n !in ws.expanded ==> r.expanded[n] == map[]
    ensures r.refs == ws.refs[n := r.panels[0][0]]
    ensures r.nextPanel > ws.nextPanel
    ensures r.lastOpen == Some(n) && r.context == ws.context
  {
    var (p, refs) := NewPanel(ws.nextPanel, n, ws.refs);
    ws.(expanded := EnsureScope(ws.expanded, n),
        lastOpen := Some(n),
        panels := ReplacePrimary(ws.panels, p),
        refs := refs,
        nextPanel := ws.nextPanel + 1)
  }

  /** `openNewPanel(n)`: a new panel on n is appended to row 0; n's scope is
      reset to empty even if it existed. */
  function OpenNewPanel(ws: Workspace, n: NodeId): (r: Workspace)
    requires |ws.panels| > 0
    ensures |r.panels| == |ws.panels|
    ensures |r.panels[0]| == |ws.panels[0]| + 1
    ensures r.panels[0][..|ws.panels[0]|] == ws.panels[0]
    ensures r.panels[0][|ws.panels[0]|] == Panel(ws.nextPanel, [n])
    ensures forall i :: 1 <= i < |ws.panels| ==> r.panels[i] == ws.panels[i]
    ensures r.expanded.Keys == ws.expanded.Keys + {n} && r.expanded[n] == map[]
    ensures forall s :: s in ws.expanded && s != n ==> r.expanded[s] == ws.expanded[s]
    ensures r.refs == ws.refs[n := Panel(ws.nextPanel, [n])]
    ensures r.nextPanel > ws.nextPanel
    ensures r.lastOpen == Some(n) && r.context == ws.context
  {
    var (p, refs) := NewPanel(ws.nextPanel, n, ws.refs);
    ws.(expanded := ResetScope(ws.expanded, n),
        lastOpen := Some(n),
        panels := AppendToFirstRow(ws.panels, p),
        refs := refs,
        nextPanel := ws.nextPanel + 1)
  }

  /** `closePanel(panel)`: every row loses every occurrence of the panel and
      keeps the rest in order; the expansion scopes and back-references stay. */
  function ClosePanel(ws: Workspace, p: Panel): (r: Workspace)
    ensures |r.panels| == |ws.panels|
    ensures forall i :: 0 <= i < |ws.panels| ==>
              forall q :: q in r.panels[i] <==> q in ws.panels[i] && q.id != p.id
    ensures forall i :: 0 <= i < |ws.panels| ==>
              |r.panels[i]| == |ws.panels[i]| - Occurrences(ws.panels[i], p.id)
              && IsSubsequence(r.panels[i], ws.panels[i])
    ensures r == ws.(panels := r.panels)
  {
    RemovePanelRows(ws.panels, p.id);
    ws.(panels := RemovePanel(ws.panels, p.id))
  }

  /** The expansion scope of node n: the root of the panel that last displayed
      it, or n itself when no panel has. */
  function ScopeOf(ws: Workspace, n: NodeId): NodeId {
    if n in ws.refs then ws.refs[n].Root() else n
  }

  /** `getExpanded(n)`: the flag stored for n in its scope, false when there
      is none; the only change of state is that the scope now exists. */
  function GetExpanded(ws: Workspace, n: NodeId): (r: (Workspace, bool))
    ensures r.1 <==> var s := ScopeOf(ws, n);
              s in ws.expanded && n in ws.expanded[s] && ws.expanded[s][n]
    ensures r.0 == ws.(expanded := r.0.expanded)
    ensures r.0.expanded.Keys == ws.expanded.Keys + {ScopeOf(ws, n)}
    ensures forall s :: s in ws.expanded ==> r.0.expanded[s] == ws.expanded[s]
    ensures ScopeOf(ws, n) !in ws.expanded ==> r.0.expanded[ScopeOf(ws, n)] == map[]
  {
    var s := ScopeOf(ws, n);
    var e := EnsureScope(ws.expanded, s);
    (ws.(expanded := e), Flag(e, s, n))
  }

  /** `setExpanded(n, b)`: fails when n is in no panel or its panel's root has
      no scope; otherwise a later `getExpanded(n)` yields b and every other
      node's flag is unchanged. */
  function SetExpanded(ws: Workspace, n: NodeId, b: bool): (r: Result<Workspace>)
    ensures n !in ws.refs ==> r == Err(NoPanel)
    ensures n in ws.refs ==> (r.Err? <==> ws.refs[n].Root() !in ws.expanded)
    ensures n in ws.refs && r.Err? ==> r.error == NoScope
    ensures r.Ok? ==> r.value == ws.(expanded := r.value.expanded)
    ensures r.Ok? ==> r.value.expanded.Keys == ws.expanded.Keys
    ensures r.Ok? ==> GetExpanded(r.value, n).1 == b
    ensures r.Ok? ==> forall t :: t in ws.expanded && t != ws.refs[n].Root() ==>
              r.value.expanded[t] == ws.expanded[t]
    ensures r.Ok? ==> forall t, m :: (t != ws.refs[n].Root() || m != n) ==>
              Flag(r.value.expanded, t, m) == Flag(ws.expanded, t, m)
    ensures r.Ok? ==> forall m :: m != n ==> GetExpanded(r.value, m).1 == GetExpanded(ws, m).1
  {
    if n !in ws.refs then Err(NoPanel)
    else
      match WriteFlag(ws.expanded, ws.refs[n].Root(), n, b)
      case Err(e) => Err(e)
      case Ok(e) => Ok(ws.(expanded := e))
  }

  /** `newContext(ctx)`, that is `Object.assign({}, context, ctx)`: the fields
      of both; a field the caller gives takes the caller's value, any other
      keeps the ambient one. The ambient context is read, never written. */
  function NewContext(ws: Workspace, ctx: Context): (r: Context)
    ensures r.Keys == ws.context.Keys + ctx.Keys
    ensures forall k :: k in ctx ==> r[k] == ctx[k]
    ensures forall k :: k in ws.context && k !in ctx ==> r[k] == ws.context[k]
  {
    ws.context + ctx
  }

  // ---------------------------------------------------------------------
  // The invariant is kept by every operation.

  lemma OpenKeepsValid(ws: Workspace, n: NodeId)
    requires Valid(ws)
    ensures Valid(Open(ws, n))
  {
    var r := Open(ws, n);
    OpenCells(ws, n);
    OpenKnown(ws, n);
    KnownBelowNext(ws);
    FreshKeepsUnique(Known(ws.panels, ws.refs), Known(r.panels, r.refs), r.panels[0][0], ws.nextPanel);
  }

  /** Every cell after open is the new panel or an old cell. */
  lemma OpenCells(ws: Workspace, n: NodeId)
    requires Valid(ws)
    ensures var r := Open(ws, n);
      forall i, j :: 0 <= i < |r.panels| && 0 <= j < |r.panels[i]| ==>
        r.panels[i][j].id < r.nextPanel && r.panels[i][j].Root() in r.expanded
  {
    var r := Open(ws, n);
    forall i, j | 0 <= i < |r.panels| && 0 <= j < |r.panels[i]|
      ensures r.panels[i][j].id < r.nextPanel && r.panels[i][j].Root() in r.expanded
    {
      if i != 0 || j != 0 {
        assert r.panels[i][j] == ws.panels[i][j];
      }
    }
  }

  /** open adds one panel to the known ones. */
  lemma OpenKnown(ws: Workspace, n: NodeId)
    requires |ws.panels| > 0
    ensures var r := Open(ws, n);
      Known(r.panels, r.refs) <= Known(ws.panels, ws.refs) + {r.panels[0][0]}
  {
    var r := Open(ws, n);
    var p := r.panels[0][0];
    forall q | q in Known(r.panels, r.refs)
      ensures q in Known(ws.panels, ws.refs) + {p}
    {
      if q !in r.refs.Values {
        var i, j :| 0 <= i < |r.panels| && 0 <= j < |r.panels[i]| && r.panels[i][j] == q;
        if i != 0 || j != 0 {
          assert q == ws.panels[i][j];
        }
      } else if q != p {
        var m :| m in r.refs && r.refs[m] == q;
        assert q in ws.refs.Values;
      }
    }
  }

  lemma OpenNewPanelKeepsValid(ws: Workspace, n: NodeId)
    requires Valid(ws)
    ensures Valid(OpenNewPanel(ws, n))
  {
    var r := OpenNewPanel(ws, n);
    OpenNewPanelCells(ws, n);
    OpenNewPanelKnown(ws, n);
    KnownBelowNext(ws);
    FreshKeepsUnique(Known(ws.panels, ws.refs), Known(r.panels, r.refs), r.panels[0][|ws.panels[0]|], ws.nextPanel);
  }

  /** Every cell after openNewPanel is the new panel or an old cell. */
  lemma OpenNewPanelCells(ws: Workspace, n: NodeId)
    requires Valid(ws)
    ensures var r := OpenNewPanel(ws, n);
      forall i, j :: 0 <= i < |r.panels| && 0 <= j < |r.panels[i]| ==>
        r.panels[i][j].id < r.nextPanel && r.panels[i][j].Root() in r.expanded
  {
    var r := OpenNewPanel(ws, n);
    var k := |ws.panels[0]|;
    forall i, j | 0 <= i < |r.panels| && 0 <= j < |r.panels[i]|
      ensures r.panels[i][j].id < r.nextPanel && r.panels[i][j].Root() in r.expanded
    {
      if i != 0 || j != k {
        assert r.panels[i][j] == ws.panels[i][j];
      }
    }
  }

  /** openNewPanel adds one panel to the known ones. */
  lemma OpenNewPanelKnown(ws: Workspace, n: NodeId)
    requires |ws.panels| > 0
    ensures var r := OpenNewPanel(ws, n);
      Known(r.panels, r.refs) <= Known(ws.panels, ws.refs) + {r.panels[0][|ws.panels[0]|]}
  {
    var r := OpenNewPanel(ws, n);
    var k := |ws.panels[0]|;
    var p := r.panels[0][k];
    forall q | q in Known(r.panels, r.refs)
      ensures q in Known(ws.panels, ws.refs) + {p}
    {
      if q !in r.refs.Values {
        var i, j :| 0 <= i < |r.panels| && 0 <= j < |r.panels[i]| && r.panels[i][j] == q;
        if i != 0 || j != k {
          assert q == ws.panels[i][j];
        }
      } else if q != p {
        var m :| m in r.refs && r.refs[m] == q;
        assert q in ws.refs.Values;
      }
    }
  }

  /** In a valid session every known panel's id is below the counter. */
  lemma KnownBelowNext(ws: Workspace)
    requires Valid(ws)
    ensures forall q :: q in Known(ws.panels, ws.refs) ==> q.id < ws.nextPanel
  {
  }

  /** Adding a panel whose id is above every id of s keeps ids unique. */
  lemma FreshKeepsUnique(s: set<Panel>, t: set<Panel>, p: Panel, bound: nat)
    requires UniqueIds(s) && (forall q :: q in s ==> q.id < bound) && p.id == bound
    requires t <= s + {p}
    ensures UniqueIds(t)
  {
  }

  lemma ClosePanelKeepsValid(ws: Workspace, p: Panel)
    requires Valid(ws)
    ensures Valid(ClosePanel(ws, p))
  {
    var r := ClosePanel(ws, p);
    forall i, j | 0 <= i < |r.panels| && 0 <= j < |r.panels[i]|
      ensures r.panels[i][j].id < r.nextPanel && r.panels[i][j].Root() in r.expanded
    {
      assert r.panels[i][j] in r.panels[i];
      assert r.panels[i][j] in ws.panels[i];
    }
    forall q | q in Known(r.panels, r.refs)
      ensures q in Known(ws.panels, ws.refs)
    {
      if q !in r.refs.Values {
        var i, j :| 0 <= i < |r.panels| && 0 <= j < |r.panels[i]| && r.panels[i][j] == q;
        assert q in r.panels[i];
        var j' :| 0 <= j' < |ws.panels[i]| && ws.panels[i][j'] == q;
      }
    }
    SubsetKeepsUnique(Known(ws.panels, ws.refs), Known(r.panels, r.refs));
  }

  /** A subset of a set of panels with unique ids has unique ids. */
  lemma SubsetKeepsUnique(s: set<Panel>, t: set<Panel>)
    requires UniqueIds(s) && t <= s
    ensures UniqueIds(t)
  {
  }

  lemma GetExpandedKeepsValid(ws: Workspace, n: NodeId)
    requires Valid(ws)
    ensures Valid(GetExpanded(ws, n).0)
  {
  }

  lemma SetExpandedKeepsValid(ws: Workspace, n: NodeId, b: bool)
    requires Valid(ws) && SetExpanded(ws, n, b).Ok?
    ensures Valid(SetExpanded(ws, n, b).value)
  {
  }

  /** `panelNode(n, p)` for a panel p shown in the grid keeps the invariant. */
  lemma PanelNodeKeepsValid(ws: Workspace, n: NodeId, p: Panel)
    requires Valid(ws) && Shown(ws, p)
    ensures Valid(ws.(refs := PanelNode(n, p, ws.refs)))
  {
    var refs := PanelNode(n, p, ws.refs);
    assert p in Known(ws.panels, ws.refs);
    forall q | q in refs.Values ensures q in ws.refs.Values || q == p {
      var m :| m in refs && refs[m] == q;
    }
    SubsetKeepsUnique(Known(ws.panels, ws.refs), Known(ws.panels, refs));
  }

  // ---------------------------------------------------------------------
  // Properties of the operations.

  /** In a valid session a node displayed in some panel can always have its
      flag set: the loud failure is reserved for nodes that were never
      displayed. */
  lemma SetExpandedFailsOnlyWithoutPanel(ws: Workspace, n: NodeId, b: bool)
    requires Valid(ws)
    ensures SetExpanded(ws, n, b).Err? <==> n !in ws.refs
  {
  }

  /** A new panel is new: its id is that of no panel in the grid or among the
      back-references. */
  lemma NewPanelIsFresh(ws: Workspace, n: NodeId, i: nat, j: nat, m: NodeId)
    requires Valid(ws)
    ensures i < |ws.panels| && j < |ws.panels[i]| ==> Open(ws, n).panels[0][0].id != ws.panels[i][j].id
    ensures m in ws.refs ==> Open(ws, n).panels[0][0].id != ws.refs[m].id
    ensures i < |ws.panels| && j < |ws.panels[i]| ==>
              OpenNewPanel(ws, n).panels[0][|ws.panels[0]|].id != ws.panels[i][j].id
    ensures m in ws.refs ==> OpenNewPanel(ws, n).panels[0][|ws.panels[0]|].id != ws.refs[m].id
  {
  }

  /** `open` twice leaves one panel at row 0, column 0: the second one, on the
      second node, a different panel from the first. */
  lemma OpenTwiceKeepsSecond(ws: Workspace, a: NodeId, b: NodeId)
    requires Valid(ws)
    ensures var once := Open(ws, a); var twice := Open(once, b);
      && |twice.panels[0]| == |once.panels[0]|
      && twice.panels[0][0].history == [b]
      && twice.panels[0][0].id != once.panels[0][0].id
      && (forall j :: 1 <= j < |twice.panels[0]| ==> twice.panels[0][j] == once.panels[0][j])
  {
  }

  /** `openNewPanel` twice leaves two new, distinct panels at the end of row 0,
      and the panels already there unchanged. */
  lemma OpenNewPanelTwiceAppendsTwo(ws: Workspace, a: NodeId, b: NodeId)
    requires Valid(ws)
    ensures var k := |ws.panels[0]|;
      var twice := OpenNewPanel(OpenNewPanel(ws, a), b);
      && |twice.panels[0]| == k + 2
      && twice.panels[0][..k] == ws.panels[0]
      && twice.panels[0][k].history == [a] && twice.panels[0][k + 1].history == [b]
      && twice.panels[0][k].id != twice.panels[0][k + 1].id
  {
    var k := |ws.panels[0]|;
    var once := OpenNewPanel(ws, a);
    var twice := OpenNewPanel(once, b);
    assert twice.panels[0][..k] == once.panels[0][..k];
  }

  /** `open` keeps an existing scope with all its flags, while `openNewPanel`
      collapses every node of the scope. */
  lemma OpenKeepsScopeOpenNewPanelResets(ws: Workspace, n: NodeId, m: NodeId)
    requires |ws.panels| > 0
    ensures n in ws.expanded ==> Open(ws, n).expanded == ws.expanded
    ensures !Flag(OpenNewPanel(ws, n).expanded, n, m)
  {
  }

  /** Closing one panel keeps a different panel on the same node. */
  lemma CloseKeepsTwin(ws: Workspace, p: Panel, q: Panel, i: nat)
    requires i < |ws.panels| && q in ws.panels[i]
    requires p.history == q.history && p.id != q.id
    ensures q in ClosePanel(ws, p).panels[i]
    ensures p !in ClosePanel(ws, p).panels[i]
  {
  }

  /** In a valid session, removing by id is removing by identity, as the
      source's `!==` does: exactly the panel p leaves each row. */
  lemma CloseByIdIsByIdentity(ws: Workspace, p: Panel, i: nat, q: Panel)
    requires Valid(ws) && p in Known(ws.panels, ws.refs) && i < |ws.panels|
    ensures q in ClosePanel(ws, p).panels[i] <==> q in ws.panels[i] && q != p
  {
    if q in ws.panels[i] {
      var j :| 0 <= j < |ws.panels[i]| && ws.panels[i][j] == q;
      assert q in Known(ws.panels, ws.refs);
    }
  }

  /** Two panels on the same node opened side by side; closing the first
      leaves row 0 as it was before, plus the second. */
  lemma CloseOneOfTwoTwins(ws: Workspace, n: NodeId)
    requires Valid(ws)
    ensures var twice := OpenNewPanel(OpenNewPanel(ws, n), n);
      var k := |ws.panels[0]|;
      && twice.panels[0][k].history == twice.panels[0][k + 1].history == [n]
      && ClosePanel(twice, twice.panels[0][k]).panels[0] == ws.panels[0] + [twice.panels[0][k + 1]]
  {
    var k := |ws.panels[0]|;
    var once := OpenNewPanel(ws, n);
    var twice := OpenNewPanel(once, n);
    var first, second := twice.panels[0][k], twice.panels[0][k + 1];
    assert twice.panels[0][..k] == ws.panels[0] by {
      assert twice.panels[0][..k] == once.panels[0][..k];
    }
    assert twice.panels[0] == ws.panels[0] + [first] + [second];
    WithoutFirstOfTwo(ws.panels[0], first, second);
  }

  /** A read through `getExpanded` changes no later read. */
  lemma GetExpandedIsUnobservable(ws: Workspace, n: NodeId, m: NodeId)
    ensures GetExpanded(GetExpanded(ws, n).0, m).1 == GetExpanded(ws, m).1
  {
  }

  /** After opening n, its flag can be set and is read back; before any set,
      a newly opened node reads as collapsed. */
  lemma OpenThenSetExpanded(ws: Workspace, n: NodeId, b: bool)
    requires Valid(ws)
    ensures var o := Open(ws, n);
      && (n !in ws.expanded ==> !GetExpanded(o, n).1)
      && SetExpanded(o, n, b).Ok?
      && GetExpanded(SetExpanded(o, n, b).value, n).1 == b
  {
    OpenKeepsValid(ws, n);
  }

  /** Expansion is per panel root: a node shown under two panels rooted at
      different nodes keeps one flag per root. */
  lemma ExpansionIsScopedByRoot(ws: Workspace, x: NodeId, p1: Panel, p2: Panel, b: bool)
    requires Valid(ws) && p1.Root() != p2.Root() && p1.Root() in ws.expanded
    ensures var r := SetExpanded(ws.(refs := PanelNode(x, p1, ws.refs)), x, b);
      && r.Ok?
      && GetExpanded(r.value, x).1 == b
      && GetExpanded(r.value.(refs := PanelNode(x, p2, ws.refs)), x).1
         == GetExpanded(ws.(refs := PanelNode(x, p2, ws.refs)), x).1
  {
  }

  /** Caller fields layered in two steps are the same as layered in one, and
      an empty caller context yields the ambient one. */
  lemma NewContextLayers(ws: Workspace, c1: Context, c2: Context)
    ensures NewContext(ws, map[]) == ws.context
    ensures NewContext(ws.(context := NewContext(ws, c1)), c2) == NewContext(ws, c1 + c2)
  {
  }
}
