/**
  What a k-coloring is, and the reference search that the naive backtracking
  colorer is proved to compute: colors are chosen for the nodes one at a time
  in the graph's node order, trying 0, 1, ..., k-1 in ascending order and
  taking the first choice from which the rest of the graph can be colored.

  A partial coloring is a sequence `pre`: `pre[j]` is the color of `g.nodes[j]`.
 */
module ColoringSpec {
  import opened Wrappers
  import opened Graph

  /** Every color of `s` lies in the palette [0, k). */
  predicate InPalette(k: int, s: seq<int>) {
    forall j :: 0 <= j < |s| ==> 0 <= s[j] < k
  }

  /** `s` colors the first |s| nodes from [0, k) and no two adjacent ones alike. */
  ghost predicate ProperPrefix(g: Graph, k: int, s: seq<int>) {
    && |s| <= |g.nodes|
    && InPalette(k, s)
    && forall j, l :: 0 <= j < |s| && 0 <= l < |s| && g.Adjacent(g.nodes[j], g.nodes[l]) ==> s[j] != s[l]
  }

  /** Color `c` may be given to the next node, `g.nodes[|pre|]`: no earlier neighbour holds it. */
  predicate CanExtend(g: Graph, pre: seq<int>, c: int)
    requires |pre| < |g.nodes|
  {
    forall j :: 0 <= j < |pre| && g.Adjacent(g.nodes[j], g.nodes[|pre|]) ==> pre[j] != c
  }

  /** The first complete coloring extending `pre`, in ascending order of colors node by node. */
  function Solve(g: Graph, k: int, pre: seq<int>): Option<seq<int>>
    decreases |g.nodes| - |pre|, 1, 0
  {
    if |pre| >= |g.nodes| then Some(pre) else TryColors(g, k, pre, 0)
  }

  /** The first complete coloring extending `pre` whose next color is at least `c`. */
  function TryColors(g: Graph, k: int, pre: seq<int>, c: nat): Option<seq<int>>
    requires |pre| < |g.nodes|
    decreases |g.nodes| - |pre|, 0, k - c
  {
    if c >= k then None
    else if CanExtend(g, pre, c) then
      match Solve(g, k, pre + [c])
      case Some(s) => Some(s)
      case None => TryColors(g, k, pre, c + 1)
    else TryColors(g, k, pre, c + 1)
  }

  /** A color that does not lead to a complete coloring is skipped. */
  lemma TryColorsSkip(g: Graph, k: int, pre: seq<int>, c: nat)
    requires |pre| < |g.nodes| && c < k
    requires !(CanExtend(g, pre, c) && Solve(g, k, pre + [c]).Some?)
    ensures TryColors(g, k, pre, c) == TryColors(g, k, pre, c + 1)
  {
  }

  /** A color that leads to a complete coloring is taken. */
  lemma TryColorsHit(g: Graph, k: int, pre: seq<int>, c: nat)
    requires |pre| < |g.nodes| && c < k
    requires CanExtend(g, pre, c) && Solve(g, k, pre + [c]).Some?
    ensures TryColors(g, k, pre, c) == Solve(g, k, pre + [c])
  {
  }

  /** Giving the next node a color its earlier neighbours do not hold keeps the prefix proper. */
  lemma ExtendProper(g: Graph, k: int, pre: seq<int>, c: int)
    requires g.Valid()
    requires ProperPrefix(g, k, pre) && |pre| < |g.nodes|
    requires 0 <= c < k && CanExtend(g, pre, c)
    ensures ProperPrefix(g, k, pre + [c])
  {
    var s := pre + [c];
    forall j, l | 0 <= j < |s| && 0 <= l < |s| && g.Adjacent(g.nodes[j], g.nodes[l])
      ensures s[j] != s[l]
    {
      if j == |pre| && l < |pre| {
        assert g.Adjacent(g.nodes[l], g.nodes[j]);
      }
    }
  }

  /** Soundness: what the search returns is a complete proper coloring extending `pre`. */
  lemma {:induction false} SolveSound(g: Graph, k: int, pre: seq<int>, s: seq<int>)
    requires g.Valid() && ProperPrefix(g, k, pre)
    requires Solve(g, k, pre) == Some(s)
    ensures |s| == |g.nodes| && pre <= s && ProperPrefix(g, k, s)
    decreases |g.nodes| - |pre|, 1, 0
  {
    if |pre| < |g.nodes| {
      TryColorsSound(g, k, pre, 0, s);
    }
  }

  lemma {:induction false} TryColorsSound(g: Graph, k: int, pre: seq<int>, c: nat, s: seq<int>)
    requires g.Valid() && ProperPrefix(g, k, pre) && |pre| < |g.nodes|
    requires TryColors(g, k, pre, c) == Some(s)
    ensures |s| == |g.nodes| && pre <= s && ProperPrefix(g, k, s)
    decreases |g.nodes| - |pre|, 0, k - c
  {
    if CanExtend(g, pre, c) && Solve(g, k, pre + [c]).Some? {
      ExtendProper(g, k, pre, c);
      SolveSound(g, k, pre + [c], s);
    } else {
      TryColorsSound(g, k, pre, c + 1, s);
    }
  }

  /** Completeness: if some complete proper coloring extends `pre`, the search finds one. */
  lemma {:induction false} SolveComplete(g: Graph, k: int, pre: seq<int>, s: seq<int>)
    requires g.Valid()
    requires |s| == |g.nodes| && pre <= s && ProperPrefix(g, k, s)
    ensures Solve(g, k, pre).Some?
    decreases |g.nodes| - |pre|, 1, 0
  {
    if |pre| < |g.nodes| {
      TryColorsComplete(g, k, pre, 0, s);
    }
  }

  lemma {:induction false} TryColorsComplete(g: Graph, k: int, pre: seq<int>, c: nat, s: seq<int>)
    requires g.Valid() && |pre| < |g.nodes|
    requires |s| == |g.nodes| && pre <= s && ProperPrefix(g, k, s)
    requires c <= s[|pre|]
    ensures TryColors(g, k, pre, c).Some?
    decreases |g.nodes| - |pre|, 0, k - c
  {
    var i := |pre|;
    if c == s[i] {
      assert CanExtend(g, pre, c) by {
        forall j | 0 <= j < i && g.Adjacent(g.nodes[j], g.nodes[i]) ensures pre[j] != c {
          assert pre[j] == s[j];
        }
      }
      assert pre + [c] <= s by {
        assert pre + [c] == s[..i + 1];
      }
      SolveComplete(g, k, pre + [c], s);
    } else if !(CanExtend(g, pre, c) && Solve(g, k, pre + [c]).Some?) {
      TryColorsComplete(g, k, pre, c + 1, s);
    }
  }

  // ---------------------------------------------------------------------------
  // Colorings as maps from node to color, the form the colorer returns.

  /** `m` gives every node a color in [0, k) and adjacent nodes different colors. */
  ghost predicate IsColoring(g: Graph, k: int, m: map<int, int>) {
    && (forall v :: v in g.nodes ==> v in m && 0 <= m[v] < k)
    && (forall u, v :: g.Adjacent(u, v) && u in m && v in m ==> m[u] != m[v])
  }

  /** The map {nodes[j]: s[j]}. */
  function ToMap(g: Graph, s: seq<int>): (m: map<int, int>)
    requires g.Valid() && |s| == |g.nodes|
    ensures m.Keys == set v | v in g.nodes
    ensures forall j :: 0 <= j < |s| ==> m[g.nodes[j]] == s[j]
  {
    map j | 0 <= j < |s| :: g.nodes[j] := s[j]
  }

  /** The answer of the whole search: the empty coloring for the empty graph, else Solve from scratch. */
  function Search(g: Graph, k: int): Option<map<int, int>>
    requires g.Valid()
  {
    if |g.nodes| == 0 then Some(map[])
    else match Solve(g, k, [])
      case Some(s) =>
        // A coloring Solve finds colors every node.
        SolveSound(g, k, [], s);
        Some(ToMap(g, s))
      case None => None
  }

  /** Soundness of the search: it returns a coloring of exactly the graph's nodes. */
  lemma SearchSound(g: Graph, k: int, m: map<int, int>)
    requires g.Valid() && Search(g, k) == Some(m)
    ensures m.Keys == set v | v in g.nodes
    ensures IsColoring(g, k, m)
  {
    if |g.nodes| > 0 {
      var s := Solve(g, k, []).value;
      SolveSound(g, k, [], s);
      forall u, v | g.Adjacent(u, v) && u in m && v in m ensures m[u] != m[v] {
        var j, l := IndexOf(g.nodes, u), IndexOf(g.nodes, v);
        assert m[u] == s[j] && m[v] == s[l];
      }
    }
  }

  /** A k-coloring, read in node order, is a proper complete prefix. */
  lemma ColoringInOrder(g: Graph, k: int, m: map<int, int>) returns (s: seq<int>)
    requires g.Valid() && IsColoring(g, k, m)
    ensures |s| == |g.nodes| && ProperPrefix(g, k, s)
    ensures forall j :: 0 <= j < |s| ==> g.nodes[j] in m && s[j] == m[g.nodes[j]]
  {
    forall j | 0 <= j < |g.nodes| ensures g.nodes[j] in m {
      var v := g.nodes[j];
      assert v in g.nodes;
    }
    s := seq(|g.nodes|, j requires 0 <= j < |g.nodes| && g.nodes[j] in m => m[g.nodes[j]]);
    forall j | 0 <= j < |s| ensures 0 <= s[j] < k {
      var v := g.nodes[j];
      assert v in g.nodes;
    }
  }

  /** Completeness of the search: it fails only when no k-coloring exists. */
  lemma SearchComplete(g: Graph, k: int)
    requires g.Valid() && Search(g, k) == None
    ensures forall m :: !IsColoring(g, k, m)
  {
    assert |g.nodes| > 0 && Solve(g, k, []).None?;
    forall m | IsColoring(g, k, m) ensures false {
      var s := ColoringInOrder(g, k, m);
      SolveComplete(g, k, [], s);
    }
  }

  /** The search succeeds exactly when the graph has a k-coloring. */
  lemma SearchSucceedsIffColorable(g: Graph, k: int)
    requires g.Valid()
    ensures Search(g, k).Some? <==> exists m :: IsColoring(g, k, m)
  {
    if Search(g, k).Some? {
      SearchSound(g, k, Search(g, k).value);
    } else {
      SearchComplete(g, k);
    }
  }

  /** With no colors at all, only the empty graph can be colored. */
  lemma NoColorsNoColoring(g: Graph, k: int)
    requires g.Valid() && k <= 0 && |g.nodes| > 0
    ensures Search(g, k) == None
  {
    assert TryColors(g, k, [], 0) == None;
  }
}
