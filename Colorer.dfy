/**
  The coloring checker and the naive backtracking colorer.

  The colorer keeps, for each node of its private copy of the graph, a `color`
  slot: `None` while the node is uncolored, `Some(c)` once color `c` has been
  given to it. The search colors the nodes in the graph's node order, so at
  every moment the colored nodes form a prefix of that order.
 */
module Colorer {
  import opened Wrappers
  import opened Graph
  import opened ColoringSpec

  // ---------------------------------------------------------------------------
  // check_coloring

  /** Looking up a node that has no entry in the color map (Python's KeyError). */
  datatype CheckError = MissingColor(node: int)

  /**
    The verdict on the neighbours `nbrs` of `u`, taken in order: the first missing
    entry is an error, the first neighbour colored like `u` makes it false.
   */
  function CheckNeighbors(colors: map<int, int>, u: int, nbrs: seq<int>): (r: Result<bool, CheckError>)
    ensures r.Err? ==> r.error.node !in colors
  {
    if nbrs == [] then Ok(true)
    else if u !in colors then Err(MissingColor(u))
    else if nbrs[0] !in colors then Err(MissingColor(nbrs[0]))
    else if colors[u] == colors[nbrs[0]] then Ok(false)
    else CheckNeighbors(colors, u, nbrs[1..])
  }

  /** The verdict on the nodes `ns` and their neighbours, node by node. */
  function CheckNodes(g: Graph, colors: map<int, int>, ns: seq<int>): (r: Result<bool, CheckError>)
    requires forall v :: v in ns ==> v in g.adj
    ensures r.Err? ==> r.error.node !in colors
  {
    if ns == [] then Ok(true)
    else
      var r := CheckNeighbors(colors, ns[0], g.adj[ns[0]]);
      if r == Ok(true) then CheckNodes(g, colors, ns[1..]) else r
  }

  /** What `check_coloring(graph, colors)` returns or raises; a KeyError names a key that is missing. */
  function Check(g: Graph, colors: map<int, int>): (r: Result<bool, CheckError>)
    requires g.Valid()
    ensures r.Err? ==> r.error.node !in colors
  {
    CheckNodes(g, colors, g.nodes)
  }

  /** check_coloring: the node loop and the neighbour loop, each returning early. */
  method CheckColoring(g: Graph, colors: map<int, int>) returns (r: Result<bool, CheckError>)
    requires g.Valid()
    ensures r == Check(g, colors)
  {
    var i := 0;
    while i < |g.nodes|
      invariant 0 <= i <= |g.nodes|
      invariant Check(g, colors) == CheckNodes(g, colors, g.nodes[i..])
    {
      var u := g.nodes[i];
      assert g.nodes[i..][1..] == g.nodes[i + 1..];
      var nbrs := g.adj[u];
      var j := 0;
      while j < |nbrs|
        invariant 0 <= j <= |nbrs|
        invariant CheckNeighbors(colors, u, nbrs) == CheckNeighbors(colors, u, nbrs[j..])
      {
        assert nbrs[j..][1..] == nbrs[j + 1..];
        var v := nbrs[j];
        if u !in colors {
          return Err(MissingColor(u));
        }
        if v !in colors {
          return Err(MissingColor(v));
        }
        if colors[u] == colors[v] {
          return Ok(false);
        }
        j := j + 1;
      }
      i := i + 1;
    }
    return Ok(true);
  }

  /** Both nodes have entries and they differ. */
  predicate Differ(colors: map<int, int>, u: int, v: int) {
    u in colors && v in colors && colors[u] != colors[v]
  }

  /** No entry missing and no two adjacent nodes alike. */
  ghost predicate NoConflict(g: Graph, colors: map<int, int>) {
    forall u, v :: g.Adjacent(u, v) ==> Differ(colors, u, v)
  }

  lemma {:induction false} CheckNeighborsMeaning(colors: map<int, int>, u: int, nbrs: seq<int>)
    ensures CheckNeighbors(colors, u, nbrs) == Ok(true) <==>
      forall t :: 0 <= t < |nbrs| ==> Differ(colors, u, nbrs[t])
    ensures CheckNeighbors(colors, u, nbrs) == Ok(false) ==>
      exists t :: 0 <= t < |nbrs| && u in colors && nbrs[t] in colors && colors[u] == colors[nbrs[t]]
    ensures CheckNeighbors(colors, u, nbrs).Err? ==>
      var x := CheckNeighbors(colors, u, nbrs).error.node;
      x !in colors && |nbrs| > 0 && (x == u || x in nbrs)
  {
    if nbrs != [] && u in colors && nbrs[0] in colors && colors[u] != colors[nbrs[0]] {
      var rest := nbrs[1..];
      CheckNeighborsMeaning(colors, u, rest);
      assert forall t :: 0 <= t < |rest| ==> rest[t] == nbrs[t + 1];
      if CheckNeighbors(colors, u, nbrs) == Ok(false) {
        var t :| 0 <= t < |rest| && rest[t] in colors && colors[u] == colors[rest[t]];
        assert nbrs[t + 1] == rest[t];
      }
      if forall t :: 0 <= t < |nbrs| ==> Differ(colors, u, nbrs[t]) {
        assert forall t :: 0 <= t < |rest| ==> Differ(colors, u, rest[t]);
      }
      if CheckNeighbors(colors, u, nbrs) == Ok(true) {
        forall t | 0 <= t < |nbrs| ensures Differ(colors, u, nbrs[t]) {
          if t > 0 { assert nbrs[t] == rest[t - 1]; }
        }
      }
    } else if nbrs != [] {
      assert !Differ(colors, u, nbrs[0]);
    }
  }

  lemma {:induction false} CheckNodesMeaning(g: Graph, colors: map<int, int>, ns: seq<int>)
    requires forall v :: v in ns ==> v in g.adj
    ensures CheckNodes(g, colors, ns) == Ok(true) <==>
      forall u, v :: u in ns && g.Adjacent(u, v) ==> Differ(colors, u, v)
    ensures CheckNodes(g, colors, ns) == Ok(false) ==>
      exists u, v :: u in ns && g.Adjacent(u, v) && u in colors && v in colors && colors[u] == colors[v]
    ensures CheckNodes(g, colors, ns).Err? ==>
      var x := CheckNodes(g, colors, ns).error.node;
      x !in colors && exists u :: u in ns && (x == u || g.Adjacent(u, x))
  {
    if ns != [] {
      var u := ns[0];
      CheckNeighborsMeaning(colors, u, g.adj[u]);
      CheckNodesMeaning(g, colors, ns[1..]);
      var r := CheckNeighbors(colors, u, g.adj[u]);
      if r == Ok(false) {
        var t :| 0 <= t < |g.adj[u]| && u in colors && g.adj[u][t] in colors && colors[u] == colors[g.adj[u][t]];
        assert g.Adjacent(u, g.adj[u][t]);
      }
      if r.Err? {
        assert u in ns;
      }
      if r == Ok(true) {
        if CheckNodes(g, colors, ns) == Ok(false) {
          var u', v :| u' in ns[1..] && g.Adjacent(u', v) && u' in colors && v in colors && colors[u'] == colors[v];
          assert u' in ns;
        }
        if CheckNodes(g, colors, ns).Err? {
          var x := CheckNodes(g, colors, ns).error.node;
          var u' :| u' in ns[1..] && (x == u' || g.Adjacent(u', x));
          assert u' in ns;
        }
        forall u', v | u' in ns && g.Adjacent(u', v) && CheckNodes(g, colors, ns) == Ok(true)
          ensures Differ(colors, u', v)
        {
          if u' == u {
            var t :| 0 <= t < |g.adj[u]| && g.adj[u][t] == v;
          } else {
            assert u' in ns[1..];
          }
        }
      }
      if forall u', v :: u' in ns && g.Adjacent(u', v) ==> Differ(colors, u', v) {
        assert u in ns;
        forall t | 0 <= t < |g.adj[u]| ensures Differ(colors, u, g.adj[u][t]) {
          assert g.Adjacent(u, g.adj[u][t]);
        }
        forall u', v | u' in ns[1..] && g.Adjacent(u', v) ensures Differ(colors, u', v) {
          assert u' in ns;
        }
      }
    }
  }

  /**
    check_coloring is true exactly when every node and every neighbour of it have
    entries and different colors; false only on a real conflict; and an error
    only for a node of the graph that has no entry.
   */
  lemma CheckMeaning(g: Graph, colors: map<int, int>)
    requires g.Valid()
    ensures Check(g, colors) == Ok(true) <==> NoConflict(g, colors)
    ensures Check(g, colors) == Ok(false) ==>
      exists u, v :: g.Adjacent(u, v) && u in colors && v in colors && colors[u] == colors[v]
    ensures Check(g, colors).Err? ==>
      Check(g, colors).error.node in g.nodes && Check(g, colors).error.node !in colors
  {
    CheckNodesMeaning(g, colors, g.nodes);
    if Check(g, colors).Err? {
      var x := Check(g, colors).error.node;
      var u :| u in g.nodes && (x == u || g.Adjacent(u, x));
      if x != u {
        assert g.Adjacent(x, u);
      }
    }
  }

  /** With an entry for every node, check_coloring never raises and decides NoConflict. */
  lemma CheckTotal(g: Graph, colors: map<int, int>)
    requires g.Valid() && forall v :: v in g.nodes ==> v in colors
    ensures Check(g, colors) == Ok(NoConflict(g, colors))
  {
    CheckMeaning(g, colors);
    match Check(g, colors)
    case Ok(b) =>
    case Err(e) =>
  }

  /** A coloring that the search returns passes check_coloring. */
  lemma SearchPassesCheck(g: Graph, k: int, m: map<int, int>)
    requires g.Valid() && Search(g, k) == Some(m)
    ensures Check(g, m) == Ok(true)
  {
    SearchSound(g, k, m);
    CheckMeaning(g, m);
    forall u, v | g.Adjacent(u, v) ensures u in m && v in m && m[u] != m[v] {
      assert g.Adjacent(v, u);
    }
  }

  // ---------------------------------------------------------------------------
  // The color slots of the colorer's graph copy.

  /**
    The slots of `nodes` when the nodes before position |t| hold the colors of
    `t` and the others are uncolored. During the search the slots always have
    this form: the colored nodes are a prefix of the node order.
   */
  function SlotsOf(nodes: seq<int>, t: seq<int>): map<int, Option<int>>
    decreases |nodes|
  {
    if |nodes| == 0 then map[]
    else
      var j := |nodes| - 1;
      SlotsOf(nodes[..j], t)[nodes[j] := if j < |t| then Some(t[j]) else None]
  }

  function Slots(g: Graph, t: seq<int>): map<int, Option<int>> {
    SlotsOf(g.nodes, t)
  }

  lemma {:induction false} SlotsOfDomain(nodes: seq<int>, t: seq<int>)
    ensures forall v :: v in SlotsOf(nodes, t) <==> v in nodes
    decreases |nodes|
  {
    if |nodes| > 0 {
      var j := |nodes| - 1;
      SlotsOfDomain(nodes[..j], t);
      assert nodes == nodes[..j] + [nodes[j]];
    }
  }

  lemma {:induction false} SlotsOfAt(nodes: seq<int>, t: seq<int>, j: nat)
    requires forall a, b :: 0 <= a < b < |nodes| ==> nodes[a] != nodes[b]
    requires j < |nodes|
    ensures nodes[j] in SlotsOf(nodes, t)
    ensures SlotsOf(nodes, t)[nodes[j]] == if j < |t| then Some(t[j]) else None
    decreases |nodes|
  {
    var last := |nodes| - 1;
    if j < last {
      assert nodes[j] != nodes[last];
      SlotsOfAt(nodes[..last], t, j);
    }
  }

  /** Exactly the graph's nodes have slots. */
  lemma SlotsDomain(g: Graph, t: seq<int>)
    ensures forall v :: v in Slots(g, t) <==> v in g.nodes
  {
    SlotsOfDomain(g.nodes, t);
  }

  lemma SlotsAt(g: Graph, t: seq<int>, j: nat)
    requires g.Valid() && j < |g.nodes|
    ensures g.nodes[j] in Slots(g, t)
    ensures Slots(g, t)[g.nodes[j]] == if j < |t| then Some(t[j]) else None
  {
    SlotsOfAt(g.nodes, t, j);
  }

  lemma SlotsAll(g: Graph, t: seq<int>)
    requires g.Valid()
    ensures forall j :: 0 <= j < |g.nodes| ==> g.nodes[j] in Slots(g, t)
    ensures forall j :: 0 <= j < |g.nodes| ==> Slots(g, t)[g.nodes[j]] == if j < |t| then Some(t[j]) else None
  {
    forall j | 0 <= j < |g.nodes|
      ensures g.nodes[j] in Slots(g, t) && Slots(g, t)[g.nodes[j]] == if j < |t| then Some(t[j]) else None
    {
      SlotsAt(g, t, j);
    }
  }

  /** Two slot maps over the nodes agree when they agree node by node. */
  lemma SlotsExt(g: Graph, m: map<int, Option<int>>, t: seq<int>)
    requires g.Valid() && forall v :: v in m <==> v in g.nodes
    requires forall j :: 0 <= j < |g.nodes| ==> g.nodes[j] in m && m[g.nodes[j]] == if j < |t| then Some(t[j]) else None
    ensures m == Slots(g, t)
  {
    SlotsDomain(g, t);
    forall v ensures v in m <==> v in Slots(g, t) {
    }
    forall v | v in m ensures m[v] == Slots(g, t)[v] {
      var j := IndexOf(g.nodes, v);
      SlotsAt(g, t, j);
      assert m[g.nodes[j]] == if j < |t| then Some(t[j]) else None;
    }
    assert m.Keys == Slots(g, t).Keys;
  }

  /** Coloring node i with c, whether or not it was colored, extends the prefix by c. */
  lemma SlotsSet(g: Graph, pre: seq<int>, t: seq<int>, c: int)
    requires g.Valid() && |pre| < |g.nodes|
    requires t == pre || (|t| == |pre| + 1 && t[..|pre|] == pre)
    ensures Slots(g, t)[g.nodes[|pre|] := Some(c)] == Slots(g, pre + [c])
  {
    var m := Slots(g, t)[g.nodes[|pre|] := Some(c)];
    SlotsDomain(g, t);
    SlotsAll(g, t);
    forall j | 0 <= j < |g.nodes| ensures g.nodes[j] in m && m[g.nodes[j]] == if j < |pre + [c]| then Some((pre + [c])[j]) else None {
      if j != |pre| {
        assert g.nodes[j] != g.nodes[|pre|];
        if j < |pre| {
          assert t[j] == pre[j];
        }
      }
    }
    SlotsExt(g, m, pre + [c]);
  }

  /** Uncoloring node i, whether or not it was colored, leaves the prefix before it. */
  lemma SlotsClear(g: Graph, pre: seq<int>, t: seq<int>)
    requires g.Valid() && |pre| < |g.nodes|
    requires t == pre || (|t| == |pre| + 1 && t[..|pre|] == pre)
    ensures Slots(g, t)[g.nodes[|pre|] := None] == Slots(g, pre)
  {
    var m := Slots(g, t)[g.nodes[|pre|] := None];
    SlotsDomain(g, t);
    SlotsAll(g, t);
    forall j | 0 <= j < |g.nodes| ensures g.nodes[j] in m && m[g.nodes[j]] == if j < |pre| then Some(pre[j]) else None {
      if j != |pre| {
        assert g.nodes[j] != g.nodes[|pre|];
        if j < |pre| {
          assert t[j] == pre[j];
        }
      }
    }
    SlotsExt(g, m, pre);
  }

  /**
    In a search state, "no neighbour of node i holds c" is exactly "c may extend
    the coloring of the nodes before i": the neighbours after i are uncolored and
    uncolored neighbours never conflict.
   */
  lemma SafeIsCanExtend(g: Graph, pre: seq<int>, t: seq<int>, c: int)
    requires g.Valid() && |pre| < |g.nodes|
    requires t == pre || (|t| == |pre| + 1 && t[..|pre|] == pre)
    ensures g.nodes[|pre|] in g.adj
    ensures forall s :: 0 <= s < |g.adj[g.nodes[|pre|]]| ==> g.adj[g.nodes[|pre|]][s] in Slots(g, t)
    ensures (forall s :: 0 <= s < |g.adj[g.nodes[|pre|]]| ==> Slots(g, t)[g.adj[g.nodes[|pre|]][s]] != Some(c))
      <==> CanExtend(g, pre, c)
  {
    var i := |pre|;
    var node := g.nodes[i];
    var m := Slots(g, t);
    assert node in g.nodes;
    NeighborsAreNodes(g, node);
    SlotsDomain(g, t);
    SlotsAll(g, t);
    if forall s :: 0 <= s < |g.adj[node]| ==> m[g.adj[node][s]] != Some(c) {
      forall j | 0 <= j < i && g.Adjacent(g.nodes[j], node) ensures pre[j] != c {
        assert g.Adjacent(node, g.nodes[j]);
        var s :| 0 <= s < |g.adj[node]| && g.adj[node][s] == g.nodes[j];
        assert t[j] == pre[j];
      }
    }
    if CanExtend(g, pre, c) {
      forall s | 0 <= s < |g.adj[node]| ensures m[g.adj[node][s]] != Some(c) {
        var w := g.adj[node][s];
        assert g.Adjacent(node, w) && g.Adjacent(w, node);
        var j := IndexOf(g.nodes, w);
        if j < i {
          assert t[j] == pre[j];
        } else {
          assert j != i;
        }
      }
    }
  }

  /** In a search state the first uncolored node is the one after the colored prefix. */
  lemma NextOfSlots(g: Graph, t: seq<int>, next: Option<int>)
    requires g.Valid() && |t| <= |g.nodes|
    requires forall j :: 0 <= j < |g.nodes| ==> g.nodes[j] in Slots(g, t)
    requires next.None? <==> forall j :: 0 <= j < |g.nodes| ==> Slots(g, t)[g.nodes[j]].Some?
    requires next.Some? ==> exists j :: (0 <= j < |g.nodes| && g.nodes[j] == next.value
      && Slots(g, t)[g.nodes[j]].None? && forall l :: 0 <= l < j ==> Slots(g, t)[g.nodes[l]].Some?)
    ensures next == if |t| < |g.nodes| then Some(g.nodes[|t|]) else None
  {
    SlotsAll(g, t);
    if |t| < |g.nodes| {
      assert Slots(g, t)[g.nodes[|t|]].None?;
      var j :| 0 <= j < |g.nodes| && g.nodes[j] == next.value
        && Slots(g, t)[g.nodes[j]].None? && forall l :: 0 <= l < j ==> Slots(g, t)[g.nodes[l]].Some?;
    }
  }

  /** Once every node is colored, reading the slots back gives the map of the colors in node order. */
  lemma SlotsToMap(g: Graph, s: seq<int>)
    requires g.Valid() && |s| == |g.nodes|
    ensures forall v :: v in g.nodes ==> v in Slots(g, s) && Slots(g, s)[v].Some?
    ensures (map v | v in g.nodes :: Slots(g, s)[v].value) == ToMap(g, s)
  {
    forall v | v in g.nodes ensures v in Slots(g, s) && Slots(g, s)[v].Some? && Slots(g, s)[v].value == ToMap(g, s)[v] {
      SlotsAt(g, s, IndexOf(g.nodes, v));
    }
  }

  /**
    A frame whose callee succeeded has found the reference search's answer. When
    `again` holds, the callee colored the frame's node once more (it succeeds
    at once if that node was the last); otherwise it colored the next node.
   */
  lemma FrameSucceeds(g: Graph, k: int, pre: seq<int>, c: nat, again: bool, s: seq<int>)
    requires |pre| < |g.nodes| && c < k && CanExtend(g, pre, c)
    requires Solve(g, k, pre) == TryColors(g, k, pre, c)
    requires again && |pre| + 1 == |g.nodes| ==> s == pre + [c]
    requires again && |pre| + 1 < |g.nodes| ==> Solve(g, k, pre).Some? && s == Solve(g, k, pre).value
    requires !again ==> Solve(g, k, pre + [c]).Some? && s == Solve(g, k, pre + [c]).value
    ensures Solve(g, k, pre).Some? && s == Solve(g, k, pre).value
  {
    if !again || |pre| + 1 == |g.nodes| {
      TryColorsHit(g, k, pre, c);
    }
  }

  /** A frame whose callee failed moves on to the next color. */
  lemma FrameFails(g: Graph, k: int, pre: seq<int>, c: nat, again: bool)
    requires |pre| < |g.nodes| && c < k && CanExtend(g, pre, c)
    requires Solve(g, k, pre) == TryColors(g, k, pre, c)
    requires again ==> |pre| + 1 < |g.nodes| && Solve(g, k, pre).None?
    requires !again ==> Solve(g, k, pre + [c]).None?
    ensures Solve(g, k, pre) == TryColors(g, k, pre, c + 1)
  {
    TryColorsSkip(g, k, pre, c);
  }

  /**
    The naive backtracking colorer: a private copy of the graph, the color
    budget, and one color slot per node of the copy.
   */
  class NaiveBacktrackingColorer {
    const nColors: int
    const graph: Graph
    var color: map<int, Option<int>>

    /** Slots exist only for nodes of the graph. */
    ghost predicate Valid()
      reads this
    {
      && graph.Valid()
      && forall v :: v in color ==> v in graph.nodes
    }

    /** Takes a copy of the caller's graph: the search never touches `G` itself. */
    constructor (G: Graph, nColors: int)
      requires G.Valid()
      ensures Valid() && graph == G && this.nColors == nColors && color == map[]
    {
      this.nColors := nColors;
      this.graph := G;
      this.color := map[];
    }

    /** is_safe: no neighbour of `node` holds `c`; uncolored neighbours never conflict. */
    method IsSafe(node: int, c: int) returns (safe: bool)
      requires Valid() && node in graph.adj
      requires forall s :: 0 <= s < |graph.adj[node]| ==> graph.adj[node][s] in color
      ensures safe <==> forall s :: 0 <= s < |graph.adj[node]| ==> color[graph.adj[node][s]] != Some(c)
    {
      var nbrs := graph.adj[node];
      var s := 0;
      while s < |nbrs|
        invariant 0 <= s <= |nbrs|
        invariant forall s' :: 0 <= s' < s ==> color[nbrs[s']] != Some(c)
      {
        if color[nbrs[s]] == Some(c) {
          return false;
        }
        s := s + 1;
      }
      return true;
    }

    /** The first uncolored node of the node order, if any. */
    method NextUncolored() returns (next: Option<int>)
      requires Valid() && forall j :: 0 <= j < |graph.nodes| ==> graph.nodes[j] in color
      ensures next.None? <==> forall j :: 0 <= j < |graph.nodes| ==> color[graph.nodes[j]].Some?
      ensures next.Some? ==> exists j :: (0 <= j < |graph.nodes| && graph.nodes[j] == next.value
        && color[graph.nodes[j]].None? && forall l :: 0 <= l < j ==> color[graph.nodes[l]].Some?)
    {
      var j := 0;
      while j < |graph.nodes|
        invariant 0 <= j <= |graph.nodes|
        invariant forall l :: 0 <= l < j ==> color[graph.nodes[l]].Some?
      {
        if color[graph.nodes[j]].None? {
          return Some(graph.nodes[j]);
        }
        j := j + 1;
      }
      return None;
    }

    /**
      graph_coloring_util(graph, num_colors, node): tries the colors
      0..nColors-1 on `node` and recurses on the first uncolored node.

      `node` is the node at position |pre|, the nodes before it hold the colors
      `pre`, and `t` is what is colored: `pre` itself (node is the first uncolored
      node) or `pre` and one more color for `node`, which the calling frame has
      just chosen. The frame succeeds exactly when the reference search from
      `pre` does (or at once, when `t` colors every node), leaving its answer in
      the slots; on failure it leaves `node` and every later node uncolored.
     */
    method GraphColoringUtil(node: int, ghost pre: seq<int>, ghost t: seq<int>) returns (done: bool)
      requires Valid()
      requires |pre| < |graph.nodes| && graph.nodes[|pre|] == node
      requires t == pre || (|t| == |pre| + 1 && t[..|pre|] == pre
        && 0 <= t[|pre|] < nColors && CanExtend(graph, pre, t[|pre|]))
      requires color == Slots(graph, t)
      modifies this
      decreases 2 * |graph.nodes| - |pre| - |t|
      ensures Valid()
      ensures done == (|t| == |graph.nodes| || Solve(graph, nColors, pre).Some?)
      ensures done && |t| == |graph.nodes| ==> color == old(color)
      ensures done && |t| < |graph.nodes| ==> color == Slots(graph, Solve(graph, nColors, pre).value)
      ensures !done ==> color == Slots(graph, pre)
    {
      SlotsAll(graph, t);
      var next := NextUncolored();
      NextOfSlots(graph, t, next);
      if next.None? {
        return true;
      }
      // Once a color has been tried and failed, the slots are those of `pre`.
      ghost var tried := false;
      var c := 0;
      while c < nColors
        invariant Valid()
        invariant 0 <= c && (c <= nColors || c == 0)
        invariant color == if tried then Slots(graph, pre) else Slots(graph, t)
        invariant Solve(graph, nColors, pre) == TryColors(graph, nColors, pre, c)
        invariant !tried ==> forall c' :: 0 <= c' < c ==> !CanExtend(graph, pre, c')
      {
        ghost var now := if tried then pre else t;
        SafeIsCanExtend(graph, pre, now, c);
        var safe := IsSafe(node, c);
        if safe {
          SlotsSet(graph, pre, now, c);
          SlotsDomain(graph, pre + [c]);
          color := color[node := Some(c)];
          // When `node` was uncolored here the callee colors it once more; otherwise it colors the next node.
          ghost var again := |t| == |pre|;
          var ok := GraphColoringUtil(next.value, if again then pre else pre + [c], pre + [c]);
          if ok {
            FrameSucceeds(graph, nColors, pre, c, again, if again && |t| + 1 == |graph.nodes| then pre + [c] else Solve(graph, nColors, if again then pre else pre + [c]).value);
            return true;
          }
          FrameFails(graph, nColors, pre, c, again);
          SlotsClear(graph, pre, if again then pre else pre + [c]);
          color := color[node := None];
          tried := true;
        } else {
          TryColorsSkip(graph, nColors, pre, c);
        }
        c := c + 1;
      }
      // A color the calling frame has chosen for `node` is safe here again, so
      // a frame that was handed one has tried it by now.
      assert !tried ==> t == pre;
      SlotsDomain(graph, pre);
      return false;
    }

    /** graph_coloring: the empty graph is colored by {}; otherwise clear every slot and search. */
    method GraphColoring() returns (r: Option<map<int, int>>)
      requires Valid()
      modifies this
      ensures Valid()
      ensures r == Search(graph, nColors)
      ensures |graph.nodes| == 0 ==> r == Some(map[]) && color == old(color)
      ensures r.Some? ==> forall v :: v in graph.nodes ==> v in r.value && v in color && color[v] == Some(r.value[v])
      ensures |graph.nodes| > 0 && r.None? ==> forall v :: v in graph.nodes ==> v in color && color[v] == None
    {
      if |graph.nodes| == 0 {
        return Some(map[]);
      }
      var first := graph.nodes[0];
      for j := 0 to |graph.nodes|
        invariant Valid()
        invariant forall l :: 0 <= l < j ==> graph.nodes[l] in color && color[graph.nodes[l]] == None
      {
        color := color[graph.nodes[j] := None];
      }
      forall v | v in graph.nodes ensures v in color {
        var j := IndexOf(graph.nodes, v);
        assert graph.nodes[j] in color;
      }
      SlotsExt(graph, color, []);
      var ok := GraphColoringUtil(first, [], []);
      if ok {
        ghost var s := Solve(graph, nColors, []).value;
        SolveSound(graph, nColors, [], s);
        SlotsToMap(graph, s);
        r := Some(map v | v in graph.nodes :: color[v].value);
      } else {
        r := None;
        SlotsAll(graph, []);
        forall v | v in graph.nodes ensures color[v] == None {
          SlotsAt(graph, [], IndexOf(graph.nodes, v));
        }
      }
    }

    /** color(): the colorer's entry point. */
    method Color() returns (r: Option<map<int, int>>)
      requires Valid()
      modifies this
      ensures Valid()
      ensures r == Search(graph, nColors)
      ensures |graph.nodes| == 0 ==> r == Some(map[]) && color == old(color)
      ensures r.Some? ==> forall v :: v in graph.nodes ==> v in r.value && v in color && color[v] == Some(r.value[v])
      ensures |graph.nodes| > 0 && r.None? ==> forall v :: v in graph.nodes ==> v in color && color[v] == None
    {
      r := GraphColoring();
    }
  }
}
