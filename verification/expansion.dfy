/** The expansion map `expanded[rootId][nodeId]` of lib/workspace.ts: one
    scope of expand/collapse flags per panel root. */
module Expansion {
  import opened Types

  /** Scope root ID to node ID to expanded flag. */
  type Scopes = map<NodeId, map<NodeId, bool>>

  /** The flag read for node n in scope s: the stored one, or false when the
      scope or the node's entry is missing. */
  function Flag(e: Scopes, s: NodeId, n: NodeId): bool {
    s in e && n in e[s] && e[s][n]
  }

  /** `if (!expanded[s]) expanded[s] = {}`: the scope exists afterwards; an
      existing scope keeps its flags, a missing one starts empty. */
  function EnsureScope(e: Scopes, s: NodeId): (r: Scopes)
    ensures r.Keys == e.Keys + {s}
    ensures s !in e ==> r[s] == map[]
    ensures forall t :: t in e ==> r[t] == e[t]
  {
    if s in e then e else e[s := map[]]
  }

  /** `expanded[s] = {}`: the scope exists afterwards and is empty, even when
      it held flags before; other scopes are unchanged. */
  function ResetScope(e: Scopes, s: NodeId): (r: Scopes)
    ensures r.Keys == e.Keys + {s} && r[s] == map[]
    ensures forall t :: t in e && t != s ==> r[t] == e[t]
  {
    e[s := map[]]
  }

  /** `expanded[s][n] = b`: fails when scope s is missing (the source reads a
      property of `undefined`); otherwise only the flag of n in s changes. */
  function WriteFlag(e: Scopes, s: NodeId, n: NodeId, b: bool): (r: Result<Scopes>)
    ensures r.Err? <==> s !in e
    ensures r.Err? ==> r.error == NoScope
    ensures r.Ok? ==> r.value.Keys == e.Keys && Flag(r.value, s, n) == b
    ensures r.Ok? ==> forall t, m :: (t != s || m != n) ==> Flag(r.value, t, m) == Flag(e, t, m)
  {
    if s !in e then Err(NoScope)
    else Ok(e[s := e[s][n := b]])
  }

  /** Creating a scope lazily is invisible to every later read. */
  lemma EnsureScopeInvisible(e: Scopes, s: NodeId, t: NodeId, m: NodeId)
    ensures Flag(EnsureScope(e, s), t, m) == Flag(e, t, m)
  {
  }

  /** Resetting a scope collapses every node in it and leaves every other
      scope as it was. */
  lemma ResetScopeCollapses(e: Scopes, s: NodeId, t: NodeId, m: NodeId)
    ensures Flag(ResetScope(e, s), t, m) == (t != s && Flag(e, t, m))
  {
  }
}
