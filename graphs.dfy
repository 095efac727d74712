/** Directed graphs over cell addresses, stored the way lib/dependency-graph
    stores them: a map from a cell to the set of cells it points at. This
    module holds the reachability and acyclicity facts the dependency graph,
    its depth-first cycle check, its evaluation order and the engine's
    breadth-first closure are proved against. */
module Graphs {
  import opened Address

  type Graph = map<CellAddress, set<CellAddress>>

  /** The cells an edge leads to from a; a cell with no entry has none. */
  function Succ(g: Graph, a: CellAddress): set<CellAddress>
  {
    if a in g then g[a] else {}
  }

  /** Every step of p follows an edge of g. */
  predicate IsPath(g: Graph, p: seq<CellAddress>)
  {
    forall i :: 0 <= i < |p| - 1 ==> p[i + 1] in Succ(g, p[i])
  }

  /** b can be reached from a by following zero or more edges. */
  ghost predicate Reachable(g: Graph, a: CellAddress, b: CellAddress)
  {
    exists p :: IsPath(g, p) && |p| > 0 && p[0] == a && p[|p| - 1] == b
  }

  /** No edge closes a cycle: the source of an edge is never reachable from
      its target. */
  ghost predicate Acyclic(g: Graph)
  {
    forall a, b :: b in Succ(g, a) ==> !Reachable(g, b, a)
  }

  /** S is closed under the edges of g. */
  predicate Closed(g: Graph, S: set<CellAddress>)
  {
    forall x :: x in S ==> Succ(g, x) <= S
  }

  /** The graph with the edge from -> to added. */
  function AddEdge(g: Graph, from: CellAddress, to: CellAddress): (h: Graph)
    ensures forall a :: Succ(h, a) == if a == from then Succ(g, a) + {to} else Succ(g, a)
  {
    g[from := Succ(g, from) + {to}]
  }

  /** The edges of g with both ends in S. */
  function Restrict(g: Graph, S: set<CellAddress>): (h: Graph)
    ensures forall a :: Succ(h, a) == if a in S then Succ(g, a) * S else {}
  {
    map a | a in g && a in S :: g[a] * S
  }

  /** The cells of T with an edge into x. */
  function PredsIn(g: Graph, T: set<CellAddress>, x: CellAddress): (r: set<CellAddress>)
    ensures forall y :: y in r <==> y in T && x in Succ(g, y)
  {
    set y | y in T && x in Succ(g, y)
  }

  /** The cells listed in s. */
  function Elems(s: seq<CellAddress>): set<CellAddress>
  {
    set x | x in s
  }

  /** No cell is listed twice. */
  predicate Distinct(s: seq<CellAddress>)
  {
    forall i, j :: 0 <= i < j < |s| ==> s[i] != s[j]
  }

  /** Every cell that occurs in g, as a source or as a target. */
  function Nodes(g: Graph): (r: set<CellAddress>)
    ensures forall a :: Succ(g, a) <= r
  {
    g.Keys + set a, b | a in g && b in g[a] :: b
  }

  lemma ReachSelf(g: Graph, a: CellAddress)
    ensures Reachable(g, a, a)
  {
    assert IsPath(g, [a]);
  }

  /** A reachable cell's successors are reachable. */
  lemma ReachStep(g: Graph, a: CellAddress, b: CellAddress, c: CellAddress)
    requires Reachable(g, a, b) && c in Succ(g, b)
    ensures Reachable(g, a, c)
  {
    var p :| IsPath(g, p) && |p| > 0 && p[0] == a && p[|p| - 1] == b;
    var q := p + [c];
    assert IsPath(g, q) && q[0] == a && q[|q| - 1] == c;
  }

  lemma ReachTrans(g: Graph, a: CellAddress, b: CellAddress, c: CellAddress)
    requires Reachable(g, a, b) && Reachable(g, b, c)
    ensures Reachable(g, a, c)
  {
    var p :| IsPath(g, p) && |p| > 0 && p[0] == a && p[|p| - 1] == b;
    var q :| IsPath(g, q) && |q| > 0 && q[0] == b && q[|q| - 1] == c;
    var r := p + q[1..];
    assert IsPath(g, r) by {
      forall i | 0 <= i < |r| - 1
        ensures r[i + 1] in Succ(g, r[i])
      {
        if i + 1 < |p| {
          assert r[i] == p[i] && r[i + 1] == p[i + 1];
        } else {
          assert r[i] == q[i + 1 - |p|] && r[i + 1] == q[i + 2 - |p|];
        }
      }
    }
    assert r[|r| - 1] == c;
  }

  /** Walking a path from inside a closed set never leaves it. */
  lemma {:induction false} PathStaysIn(g: Graph, S: set<CellAddress>, p: seq<CellAddress>, k: nat)
    requires Closed(g, S) && IsPath(g, p) && |p| > 0 && p[0] in S && k < |p|
    ensures p[k] in S
  {
    if k > 0 {
      PathStaysIn(g, S, p, k - 1);
      assert p[k] in Succ(g, p[k - 1]);
    }
  }

  /** A closed set holds everything reachable from its members. */
  lemma ClosedHoldsReachable(g: Graph, S: set<CellAddress>, a: CellAddress, b: CellAddress)
    requires Closed(g, S) && a in S && Reachable(g, a, b)
    ensures b in S
  {
    var p :| IsPath(g, p) && |p| > 0 && p[0] == a && p[|p| - 1] == b;
    PathStaysIn(g, S, p, |p| - 1);
  }

  /** A path of the graph with one more edge either is a path of the
      original graph, or runs through the new edge: then its start reaches
      the new edge's source and the new edge's target reaches its end. */
  lemma {:induction false} PathWithNewEdge(g: Graph, from: CellAddress, to: CellAddress, p: seq<CellAddress>)
    requires IsPath(AddEdge(g, from, to), p) && |p| > 0
    ensures IsPath(g, p) || (Reachable(g, p[0], from) && Reachable(g, to, p[|p| - 1]))
    decreases |p|
  {
    if |p| > 1 && !IsPath(g, p) {
      var q := p[1..];
      assert IsPath(AddEdge(g, from, to), q);
      PathWithNewEdge(g, from, to, q);
      if p[1] in Succ(g, p[0]) {
        if !IsPath(g, q) {
          assert IsPath(g, [p[0], p[1]]);
          ReachTrans(g, p[0], p[1], from);
        }
      } else {
        assert p[0] == from && p[1] == to;
        ReachSelf(g, from);
        if IsPath(g, q) {
          assert Reachable(g, to, p[|p| - 1]) by {
            assert q[0] == to && q[|q| - 1] == p[|p| - 1];
          }
        }
      }
    }
  }

  /** Guarded insertion: adding from -> to to an acyclic graph keeps it
      acyclic when from is not reachable from to (which includes from == to). */
  lemma AddEdgeKeepsAcyclic(g: Graph, from: CellAddress, to: CellAddress)
    requires Acyclic(g) && !Reachable(g, to, from)
    ensures Acyclic(AddEdge(g, from, to))
  {
    var h := AddEdge(g, from, to);
    forall a, b | b in Succ(h, a)
      ensures !Reachable(h, b, a)
    {
      if Reachable(h, b, a) {
        var p :| IsPath(h, p) && |p| > 0 && p[0] == b && p[|p| - 1] == a;
        var q := [a] + p;
        assert IsPath(h, q);
        PathWithNewEdge(g, from, to, q);
        if IsPath(g, q) {
          assert IsPath(g, p) by {
            forall i | 0 <= i < |p| - 1
              ensures p[i + 1] in Succ(g, p[i])
            {
              assert p[i] == q[i + 1] && p[i + 1] == q[i + 2];
            }
          }
        } else {
          ReachTrans(g, to, a, from);
        }
      }
    }
  }

  /** A path of a graph is a path of any graph with at least its edges. */
  lemma SubgraphPath(g: Graph, h: Graph, p: seq<CellAddress>)
    requires forall a :: Succ(g, a) <= Succ(h, a)
    requires IsPath(g, p)
    ensures IsPath(h, p)
  {
  }

  /** Removing edges keeps a graph acyclic. */
  lemma SubgraphAcyclic(g: Graph, h: Graph)
    requires forall a :: Succ(g, a) <= Succ(h, a)
    requires Acyclic(h)
    ensures Acyclic(g)
  {
    forall a, b | b in Succ(g, a)
      ensures !Reachable(g, b, a)
    {
      if Reachable(g, b, a) {
        var p :| IsPath(g, p) && |p| > 0 && p[0] == b && p[|p| - 1] == a;
        SubgraphPath(g, h, p);
      }
    }
  }

  /** A sequence longer than the set it is drawn from repeats an element. */
  lemma {:induction false} Pigeonhole(R: set<CellAddress>, w: seq<CellAddress>)
    requires forall k :: 0 <= k < |w| ==> w[k] in R
    requires |w| > |R|
    ensures exists i, j :: 0 <= i < j < |w| && w[i] == w[j]
    decreases |w|
  {
    if w[0] in w[1..] {
      var j :| 0 <= j < |w[1..]| && w[1..][j] == w[0];
      assert w[0] == w[j + 1];
    } else {
      var v := w[1..];
      assert forall k :: 0 <= k < |v| ==> v[k] in R - {w[0]};
      Pigeonhole(R - {w[0]}, v);
      var i, j :| 0 <= i < j < |v| && v[i] == v[j];
      assert w[i + 1] == w[j + 1];
    }
  }

  /** Some cell of R has an edge into y. */
  ghost predicate HasPredIn(g: Graph, R: set<CellAddress>, y: CellAddress)
  {
    exists z :: z in R && y in Succ(g, z)
  }

  /** Every step of w goes against an edge of g. */
  predicate IsBackPath(g: Graph, w: seq<CellAddress>)
  {
    forall k :: 0 <= k < |w| - 1 ==> w[k] in Succ(g, w[k + 1])
  }

  /** In a set where every cell has a predecessor inside the set, a walk
      backwards of any length stays inside it. */
  lemma {:induction false} BackWalk(g: Graph, R: set<CellAddress>, x: CellAddress, n: nat) returns (w: seq<CellAddress>)
    requires x in R
    requires forall y {:trigger HasPredIn(g, R, y)} :: y in R ==> HasPredIn(g, R, y)
    ensures |w| == n + 1 && w[0] == x
    ensures forall k :: 0 <= k < |w| ==> w[k] in R
    ensures IsBackPath(g, w)
  {
    if n == 0 {
      w := [x];
    } else {
      var v := BackWalk(g, R, x, n - 1);
      var last := v[n - 1];
      assert HasPredIn(g, R, last);
      var z :| z in R && last in Succ(g, z);
      w := v + [z];
    }
  }

  /** A non-empty set where every cell has a predecessor inside the set
      holds a cycle. */
  lemma NoSourceMeansCycle(g: Graph, R: set<CellAddress>)
    requires R != {}
    requires forall y {:trigger HasPredIn(g, R, y)} :: y in R ==> HasPredIn(g, R, y)
    ensures !Acyclic(g)
  {
    var x :| x in R;
    var w := BackWalk(g, R, x, |R|);
    Pigeonhole(R, w);
    var i, j :| 0 <= i < j < |w| && w[i] == w[j];
    // Read forward, w[j], w[j-1], ..., w[i] is a path from w[j] back to itself.
    var p := seq(j - i, k requires 0 <= k < j - i => w[j - 1 - k]);
    assert IsPath(g, p) by {
      forall k | 0 <= k < |p| - 1
        ensures p[k + 1] in Succ(g, p[k])
      {
        assert p[k] == w[j - 1 - k] && p[k + 1] == w[j - 2 - k];
      }
    }
    assert p[0] == w[j - 1] && p[|p| - 1] == w[i] == w[j];
    assert w[j - 1] in Succ(g, w[j]);
  }

  /** An acyclic graph stays acyclic restricted to any set of cells. */
  lemma RestrictAcyclic(g: Graph, S: set<CellAddress>)
    requires Acyclic(g)
    ensures Acyclic(Restrict(g, S))
  {
    SubgraphAcyclic(Restrict(g, S), g);
  }
}
