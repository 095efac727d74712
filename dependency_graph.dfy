/** The DependencyGraph of lib/dependency-graph/index.ts: a forward map from a
    cell to the cells its formula reads, and the reverse map from a cell to
    the cells that read it, kept exact inverses of each other. */
module DepGraph {
  import opened Address
  import opened Graphs

  /** rev is the exact inverse of fwd. */
  ghost predicate Inverse(fwd: Graph, rev: Graph)
  {
    forall a, b :: b in Succ(fwd, a) <==> a in Succ(rev, b)
  }

  /** No cell keeps an empty set: a cell without edges has no entry. */
  predicate NoEmpty(g: Graph)
  {
    forall a :: a in g ==> g[a] != {}
  }

  /** The reverse map after cell's outgoing edges to targets are dropped:
      cell leaves the reverse set of each target, and a set left empty is
      deleted. */
  function Unlinked(rev: Graph, cell: CellAddress, targets: set<CellAddress>): Graph
  {
    map d | d in rev && (d !in targets || rev[d] - {cell} != {}) ::
      if d in targets then rev[d] - {cell} else rev[d]
  }

  /** Adding an edge to both maps, in opposite directions, keeps them inverse
      and free of empty sets. */
  lemma AddKeepsInverse(fwd: Graph, rev: Graph, from: CellAddress, to: CellAddress)
    requires Inverse(fwd, rev) && NoEmpty(fwd) && NoEmpty(rev)
    ensures Inverse(AddEdge(fwd, from, to), AddEdge(rev, to, from))
    ensures NoEmpty(AddEdge(fwd, from, to)) && NoEmpty(AddEdge(rev, to, from))
  {
  }

  /** Re-adding an edge that is already there changes nothing. */
  lemma AddExistingEdge(g: Graph, from: CellAddress, to: CellAddress)
    requires to in Succ(g, from)
    ensures AddEdge(g, from, to) == g
  {
    assert g[from] + {to} == g[from];
  }

  /** Dropping a cell's outgoing edges from both maps keeps them inverse and
      free of empty sets. */
  lemma RemoveKeepsInverse(fwd: Graph, rev: Graph, cell: CellAddress)
    requires Inverse(fwd, rev) && NoEmpty(fwd) && NoEmpty(rev)
    ensures Inverse(fwd - {cell}, Unlinked(rev, cell, Succ(fwd, cell)))
    ensures NoEmpty(fwd - {cell}) && NoEmpty(Unlinked(rev, cell, Succ(fwd, cell)))
  {
    var fwd', rev' := fwd - {cell}, Unlinked(rev, cell, Succ(fwd, cell));
    forall a, b
      ensures b in Succ(fwd', a) <==> a in Succ(rev', b)
    {
      assert b in Succ(fwd, a) <==> a in Succ(rev, b);
      assert cell in Succ(rev, b) <==> b in Succ(fwd, cell);
      if b in rev' {
        assert rev'[b] == if b in Succ(fwd, cell) then rev[b] - {cell} else rev[b];
      }
      if a != cell {
        assert Succ(fwd', a) == Succ(fwd, a);
      }
    }
  }

  /** Unlinking from one more target is the one-target step the loop of
      removeDependencies takes. */
  lemma UnlinkStep(rev: Graph, cell: CellAddress, done: set<CellAddress>, dep: CellAddress)
    requires dep !in done
    ensures var m := Unlinked(rev, cell, done);
            Unlinked(rev, cell, done + {dep})
              == if dep !in m then m
                 else if m[dep] - {cell} == {} then m - {dep}
                 else m[dep := m[dep] - {cell}]
  {
    var m := Unlinked(rev, cell, done);
    if dep in m {
      assert m[dep] == rev[dep];
    }
  }

  /** The DependencyGraph class: the two maps, kept inverse by every
      operation. */
  class DependencyGraph {
    var dependencies: Graph
    var dependents: Graph

    ghost predicate Valid()
      reads this
    {
      Inverse(dependencies, dependents) && NoEmpty(dependencies) && NoEmpty(dependents)
    }

    constructor()
      ensures Valid() && dependencies == map[] && dependents == map[]
    {
      dependencies := map[];
      dependents := map[];
    }

    /** addDependency (lib/dependency-graph/index.ts:7-12): from reads to. */
    method AddDependency(from: CellAddress, to: CellAddress)
      requires Valid()
      modifies this
      ensures Valid()
      ensures dependencies == AddEdge(old(dependencies), from, to)
      ensures dependents == AddEdge(old(dependents), to, from)
    {
      if from !in dependencies {
        dependencies := dependencies[from := {}];
      }
      if to !in dependents {
        dependents := dependents[to := {}];
      }
      dependencies := dependencies[from := dependencies[from] + {to}];
      dependents := dependents[to := dependents[to] + {from}];
      assert dependencies == AddEdge(old(dependencies), from, to);
      assert dependents == AddEdge(old(dependents), to, from);
      AddKeepsInverse(old(dependencies), old(dependents), from, to);
    }

    /** removeDependencies (lib/dependency-graph/index.ts:14-25): drops every
        edge out of cell; a cell without outgoing edges is left alone. */
    method RemoveDependencies(cell: CellAddress)
      requires Valid()
      modifies this
      ensures Valid()
      ensures dependencies == old(dependencies) - {cell}
      ensures dependents == Unlinked(old(dependents), cell, Succ(old(dependencies), cell))
    {
      RemoveKeepsInverse(dependencies, dependents, cell);
      if cell !in dependencies {
        assert Unlinked(dependents, cell, {}) == dependents;
        assert dependencies - {cell} == dependencies;
        return;
      }
      var deps := dependencies[cell];
      var remaining := deps;
      while remaining != {}
        invariant remaining <= deps
        invariant dependencies == old(dependencies)
        invariant dependents == Unlinked(old(dependents), cell, deps - remaining)
        decreases remaining
      {
        var dep :| dep in remaining;
        UnlinkStep(old(dependents), cell, deps - remaining, dep);
        if dep in dependents {
          var rev := dependents[dep] - {cell};
          if rev == {} {
            dependents := dependents - {dep};
          } else {
            dependents := dependents[dep := rev];
          }
        }
        assert deps - (remaining - {dep}) == (deps - remaining) + {dep};
        remaining := remaining - {dep};
      }
      assert deps - remaining == Succ(old(dependencies), cell);
      dependencies := dependencies - {cell};
    }

    /** getDependencies (lib/dependency-graph/index.ts:27-29): the cells cell
        reads, which are exactly the cells listing cell as a dependent. */
    function GetDependencies(cell: CellAddress): (r: set<CellAddress>)
      requires Valid()
      reads this
      ensures forall b :: b in r <==> cell in Succ(dependents, b)
    {
      Succ(dependencies, cell)
    }

    /** getDependents (lib/dependency-graph/index.ts:31-33): the cells that
        read cell, which are exactly the cells listing cell as a dependency. */
    function GetDependents(cell: CellAddress): (r: set<CellAddress>)
      requires Valid()
      reads this
      ensures forall a :: a in r <==> cell in Succ(dependencies, a)
    {
      Succ(dependents, cell)
    }

    /** hasCycle (lib/dependency-graph/index.ts:35-48): a depth-first walk
        from to along the dependency edges looks for from. The order in
        which a cell's dependencies are pushed is not fixed by the model. */
    method HasCycle(from: CellAddress, to: CellAddress) returns (r: bool)
      ensures r <==> Reachable(dependencies, to, from)
    {
      var g := dependencies;
      ReachSelf(g, to);
      if from == to {
        return true;
      }
      ghost var U := Nodes(g) + {to};
      var visited: set<CellAddress> := {};
      var stack := [to];
      assert Elems(stack) == {to};
      while |stack| > 0
        invariant DfsState(g, to, from, U, visited, stack)
        decreases |U - visited|, |stack|
      {
        var found;
        found, visited, stack := DfsStep(g, to, from, U, visited, stack);
        if found {
          return true;
        }
      }
      DfsDone(g, to, from, U, visited);
      return false;
    }

    /** getEvaluationOrder (lib/dependency-graph/index.ts:50-78): Kahn's
        algorithm over the distinct cells given, with in-degrees counted on
        the dependency side, so a cell comes out before the cells it reads.
        Cells caught in a cycle are appended by Complete, which states
        their order. */
    method GetEvaluationOrder(cells: seq<CellAddress>) returns (order: seq<CellAddress>)
      ensures Distinct(order) && Elems(order) == Elems(cells)
      ensures Acyclic(Restrict(dependencies, Elems(cells))) ==>
                forall i, j :: 0 <= i < |order| && 0 <= j < |order| && order[j] in Succ(dependencies, order[i]) ==> i < j
    {
      var g := dependencies;
      var u := Unique(cells);
      var S := Elems(u);
      var inDegree := CountInDegrees(g, u);
      var queue := SeedQueue(u, inDegree);
      order := [];
      KahnInit(g, S, queue, inDegree);
      while |queue| > 0
        invariant KahnState(g, S, order, queue, inDegree)
        decreases |S - Elems(order)|
      {
        var cur := queue[0];
        assert queue == [cur] + queue[1..];
        queue := queue[1..];
        KahnTake(g, S, order, cur, queue, inDegree);
        order := order + [cur];
        queue, inDegree := Release(g, S, order, queue, inDegree);
      }
      KahnOrdered(g, S, order, inDegree);
      if Acyclic(Restrict(g, S)) {
        KahnEnd(g, S, order, inDegree);
      }
      DistinctCard(order);
      if |order| != |S| {
        order := Complete(u, order);
      } else {
        SubsetCardEq(Elems(order), S);
      }
    }
  }

  /** One round of the walk of hasCycle: pop a cell; stop if it is from,
      skip it if it was visited, and otherwise mark it and push its
      dependencies. */
  method DfsStep(g: Graph, to: CellAddress, from: CellAddress, ghost U: set<CellAddress>,
                 visited: set<CellAddress>, stack: seq<CellAddress>)
    returns (found: bool, visited': set<CellAddress>, stack': seq<CellAddress>)
    requires U == Nodes(g) + {to}
    requires |stack| > 0 && DfsState(g, to, from, U, visited, stack)
    ensures found ==> Reachable(g, to, from)
    ensures !found ==> DfsState(g, to, from, U, visited', stack')
    ensures !found ==> |U - visited'| < |U - visited| || (visited' == visited && |stack'| < |stack|)
  {
    var cur := stack[|stack| - 1];
    var rest := stack[..|stack| - 1];
    assert stack == rest + [cur];
    if cur == from {
      DfsFound(g, to, from, U, visited, rest, cur);
      return true, visited, rest;
    }
    if cur in visited {
      DfsSkip(g, to, from, U, visited, rest, cur);
      return false, visited, rest;
    }
    assert U - (visited + {cur}) < U - visited;
    var grown := PushAll(rest, Succ(g, cur));
    DfsVisit(g, to, from, U, visited, rest, cur, grown);
    return false, visited + {cur}, grown;
  }

  /** The facts the depth-first walk of hasCycle keeps: everything seen is
      reachable from to, from has not been seen, and every successor of a
      visited cell is visited or still on the stack. */
  ghost predicate DfsState(g: Graph, to: CellAddress, from: CellAddress, U: set<CellAddress>,
                           visited: set<CellAddress>, stack: seq<CellAddress>)
  {
    && visited <= U && Elems(stack) <= U && from !in visited
    && (forall x :: x in visited ==> Reachable(g, to, x))
    && (forall x :: x in Elems(stack) ==> Reachable(g, to, x))
    && (to in visited || to in Elems(stack))
    && (forall x, y :: x in visited && y in Succ(g, x) ==> y in visited || y in Elems(stack))
  }

  lemma DfsFound(g: Graph, to: CellAddress, from: CellAddress, U: set<CellAddress>,
                 visited: set<CellAddress>, stack: seq<CellAddress>, cur: CellAddress)
    requires DfsState(g, to, from, U, visited, stack + [cur]) && cur == from
    ensures Reachable(g, to, from)
  {
    assert cur in Elems(stack + [cur]);
  }

  lemma DfsSkip(g: Graph, to: CellAddress, from: CellAddress, U: set<CellAddress>,
                visited: set<CellAddress>, stack: seq<CellAddress>, cur: CellAddress)
    requires DfsState(g, to, from, U, visited, stack + [cur]) && cur in visited
    ensures DfsState(g, to, from, U, visited, stack)
  {
    assert Elems(stack + [cur]) == Elems(stack) + {cur};
  }

  lemma DfsVisit(g: Graph, to: CellAddress, from: CellAddress, U: set<CellAddress>,
                 visited: set<CellAddress>, stack: seq<CellAddress>, cur: CellAddress, grown: seq<CellAddress>)
    requires DfsState(g, to, from, U, visited, stack + [cur]) && cur !in visited && cur != from
    requires Succ(g, cur) <= Nodes(g)
    requires U == Nodes(g) + {to}
    requires |grown| >= |stack| && grown[..|stack|] == stack && Elems(grown[|stack|..]) == Succ(g, cur)
    ensures DfsState(g, to, from, U, visited + {cur}, grown)
  {
    assert Elems(stack + [cur]) == Elems(stack) + {cur};
    assert grown == stack + grown[|stack|..];
    assert Elems(grown) == Elems(stack) + Succ(g, cur);
    forall x | x in Succ(g, cur)
      ensures Reachable(g, to, x)
    {
      ReachStep(g, to, cur, x);
    }
  }

  lemma DfsDone(g: Graph, to: CellAddress, from: CellAddress, U: set<CellAddress>, visited: set<CellAddress>)
    requires DfsState(g, to, from, U, visited, [])
    ensures !Reachable(g, to, from)
  {
    assert Elems([]) == {};
    assert Closed(g, visited);
    if Reachable(g, to, from) {
      ClosedHoldsReachable(g, visited, to, from);
    }
  }

  /** Pushes the cells of next onto the stack, in an order the model leaves
      open (the iteration order of a JavaScript Set). */
  method PushAll(stack: seq<CellAddress>, next: set<CellAddress>) returns (s: seq<CellAddress>)
    ensures |s| >= |stack| && s[..|stack|] == stack
    ensures Elems(s[|stack|..]) == next
  {
    s := stack;
    var rest := next;
    while rest != {}
      invariant rest <= next
      invariant |s| >= |stack| && s[..|stack|] == stack
      invariant Elems(s[|stack|..]) == next - rest
      decreases rest
    {
      var n :| n in rest;
      assert (s + [n])[|stack|..] == s[|stack|..] + [n];
      assert Elems(s[|stack|..] + [n]) == Elems(s[|stack|..]) + {n};
      s := s + [n];
      rest := rest - {n};
    }
  }

  /** The distinct cells of cells in first-occurrence order, the iteration
      order of `new Set(cells)`. */
  function Unique(cells: seq<CellAddress>): (u: seq<CellAddress>)
    ensures Distinct(u) && Elems(u) == Elems(cells)
  {
    if |cells| == 0 then []
    else
      var init, c := cells[..|cells| - 1], cells[|cells| - 1];
      assert Elems(cells) == Elems(init) + {c} by { assert cells == init + [c]; }
      var u := Unique(init);
      if c in u then u else u + [c]
  }

  lemma {:induction false} DistinctCard(s: seq<CellAddress>)
    requires Distinct(s)
    ensures |Elems(s)| == |s|
  {
    if |s| > 0 {
      var init := s[..|s| - 1];
      assert s == init + [s[|s| - 1]];
      assert Elems(s) == Elems(init) + {s[|s| - 1]};
      DistinctCard(init);
    }
  }

  lemma {:induction false} SubsetCard(A: set<CellAddress>, B: set<CellAddress>)
    requires A <= B
    ensures |A| <= |B|
    decreases A
  {
    if A != {} {
      var y :| y in A;
      SubsetCard(A - {y}, B - {y});
    }
  }

  lemma SubsetCardEq(A: set<CellAddress>, B: set<CellAddress>)
    requires A <= B && |A| == |B|
    ensures A == B
  {
    if A != B {
      assert exists x :: x in B && x !in A;
      var x :| x in B && x !in A;
      SubsetCard(A, B - {x});
    }
  }

  /** Adding a cell to a set of sources adds one to the in-degree of each
      cell it points at. */
  lemma PredsAddOne(g: Graph, T: set<CellAddress>, c: CellAddress, d: CellAddress)
    requires c !in T
    ensures |PredsIn(g, T + {c}, d)| == |PredsIn(g, T, d)| + (if d in Succ(g, c) then 1 else 0)
  {
    if d in Succ(g, c) {
      assert PredsIn(g, T + {c}, d) == PredsIn(g, T, d) + {c};
    } else {
      assert PredsIn(g, T + {c}, d) == PredsIn(g, T, d);
    }
  }

  /** The inner loop of the in-degree count (lib/dependency-graph/index.ts:55-58):
      each subset cell c points at gains one. */
  method CountEdgesOf(g: Graph, S: set<CellAddress>, c: CellAddress, inDegree: map<CellAddress, int>)
    returns (counted: map<CellAddress, int>)
    requires forall d :: d in S ==> d in inDegree
    ensures forall d :: d in S ==> d in counted && counted[d] == inDegree[d] + (if d in Succ(g, c) then 1 else 0)
  {
    var deps := Succ(g, c);
    var rest := deps;
    counted := inDegree;
    while rest != {}
      invariant rest <= deps
      invariant forall d :: d in S ==> d in counted && counted[d] == inDegree[d] + (if d in deps - rest then 1 else 0)
      decreases rest
    {
      var d :| d in rest;
      if d in S {
        counted := counted[d := counted[d] + 1];
      }
      rest := rest - {d};
    }
  }

  /** The in-degree loops of getEvaluationOrder (lib/dependency-graph/index.ts:52-59):
      each cell of the subset counts the subset cells that read it. */
  method CountInDegrees(g: Graph, u: seq<CellAddress>) returns (inDegree: map<CellAddress, int>)
    requires Distinct(u)
    ensures forall d :: d in Elems(u) ==> d in inDegree && inDegree[d] == |PredsIn(g, Elems(u), d)|
  {
    var S := Elems(u);
    inDegree := map[];
    var i := 0;
    while i < |u|
      invariant 0 <= i <= |u|
      invariant forall d :: d in Elems(u[..i]) ==> d in inDegree && inDegree[d] == 0
    {
      assert Elems(u[..i + 1]) == Elems(u[..i]) + {u[i]} by { assert u[..i + 1] == u[..i] + [u[i]]; }
      inDegree := inDegree[u[i] := 0];
      i := i + 1;
    }
    assert u[..i] == u;
    i := 0;
    while i < |u|
      invariant 0 <= i <= |u|
      invariant forall d :: d in S ==> d in inDegree && inDegree[d] == |PredsIn(g, Elems(u[..i]), d)|
    {
      var c := u[i];
      inDegree := CountEdgesOf(g, S, c, inDegree);
      assert Elems(u[..i + 1]) == Elems(u[..i]) + {c} by { assert u[..i + 1] == u[..i] + [c]; }
      assert c !in Elems(u[..i]);
      forall d | d in S
        ensures inDegree[d] == |PredsIn(g, Elems(u[..i + 1]), d)|
      {
        PredsAddOne(g, Elems(u[..i]), c, d);
      }
      i := i + 1;
    }
    assert u[..i] == u;
  }

  /** The initial queue (lib/dependency-graph/index.ts:60-61): the cells of
      in-degree 0, in the insertion order of the in-degree map. */
  method SeedQueue(u: seq<CellAddress>, inDegree: map<CellAddress, int>) returns (queue: seq<CellAddress>)
    requires Distinct(u) && forall d :: d in Elems(u) ==> d in inDegree
    ensures Distinct(queue)
    ensures forall c :: c in Elems(queue) <==> c in Elems(u) && inDegree[c] == 0
  {
    queue := [];
    var i := 0;
    while i < |u|
      invariant 0 <= i <= |u|
      invariant Distinct(queue)
      invariant forall c :: c in Elems(queue) <==> c in Elems(u[..i]) && inDegree[c] == 0
    {
      assert Elems(u[..i + 1]) == Elems(u[..i]) + {u[i]} by { assert u[..i + 1] == u[..i] + [u[i]]; }
      if inDegree[u[i]] == 0 {
        assert u[i] !in Elems(u[..i]);
        queue := queue + [u[i]];
      }
      i := i + 1;
    }
    assert u[..i] == u;
  }

  /** order and queue hold distinct cells of the subset, and every subset
      cell has an in-degree entry. */
  predicate KDistinct(S: set<CellAddress>, order: seq<CellAddress>, queue: seq<CellAddress>,
                      inDegree: map<CellAddress, int>)
  {
    Distinct(order + queue) && Elems(order + queue) <= S && forall d :: d in S ==> d in inDegree
  }

  /** A cell neither emitted nor queued has a positive in-degree: the number
      of unemitted subset cells reading it, plus one for each reader whose
      release is still pending (those in rest). */
  ghost predicate KCounts(g: Graph, S: set<CellAddress>, order: seq<CellAddress>, queue: seq<CellAddress>,
                          inDegree: map<CellAddress, int>, rest: set<CellAddress>)
    requires forall d :: d in S ==> d in inDegree
  {
    forall d :: d in S && d !in Elems(order) && d !in Elems(queue) ==>
      inDegree[d] == |PredsIn(g, S - Elems(order), d)| + (if d in rest then 1 else 0) && inDegree[d] > 0
  }

  /** Every subset cell reading a queued cell has been emitted. */
  ghost predicate KQueued(g: Graph, S: set<CellAddress>, order: seq<CellAddress>, queue: seq<CellAddress>)
  {
    forall d :: d in Elems(queue) ==> PredsIn(g, S, d) <= Elems(order)
  }

  /** Every subset cell reading an emitted cell was emitted before it. */
  ghost predicate KOrdered(g: Graph, S: set<CellAddress>, order: seq<CellAddress>)
  {
    forall k :: 0 <= k < |order| ==> PredsIn(g, S, order[k]) <= Elems(order[..k])
  }

  /** What the queue loop of getEvaluationOrder keeps. */
  ghost predicate KahnState(g: Graph, S: set<CellAddress>, order: seq<CellAddress>, queue: seq<CellAddress>,
                            inDegree: map<CellAddress, int>)
  {
    && KDistinct(S, order, queue, inDegree)
    && KCounts(g, S, order, queue, inDegree, {})
    && KQueued(g, S, order, queue)
    && KOrdered(g, S, order)
  }

  /** KahnState while the dependencies of the last emitted cell are being
      released: those still in rest have not had their in-degree lowered,
      and are neither emitted nor queued. */
  ghost predicate ReleaseState(g: Graph, S: set<CellAddress>, order: seq<CellAddress>, queue: seq<CellAddress>,
                               inDegree: map<CellAddress, int>, rest: set<CellAddress>)
  {
    && KDistinct(S, order, queue, inDegree)
    && KCounts(g, S, order, queue, inDegree, rest)
    && KQueued(g, S, order, queue)
    && KOrdered(g, S, order)
    && (forall d :: d in rest && d in S ==> d !in Elems(order) && d !in Elems(queue))
  }

  lemma KahnInit(g: Graph, S: set<CellAddress>, queue: seq<CellAddress>, inDegree: map<CellAddress, int>)
    requires Distinct(queue)
    requires forall d :: d in S ==> d in inDegree && inDegree[d] == |PredsIn(g, S, d)|
    requires forall c :: c in Elems(queue) <==> c in S && inDegree[c] == 0
    ensures KahnState(g, S, [], queue, inDegree)
  {
    assert [] + queue == queue;
    assert S - Elems([]) == S;
  }

  /** Removing a cell from the unemitted set lowers by one the count of each
      cell it reads. */
  lemma PredsRemoveOne(g: Graph, T: set<CellAddress>, x: CellAddress, d: CellAddress)
    requires x in T
    ensures |PredsIn(g, T, d)| == |PredsIn(g, T - {x}, d)| + (if d in Succ(g, x) then 1 else 0)
  {
    PredsAddOne(g, T - {x}, x, d);
    assert T - {x} + {x} == T;
  }

  lemma TakeDistinct(S: set<CellAddress>, order: seq<CellAddress>, cur: CellAddress, queue: seq<CellAddress>,
                     inDegree: map<CellAddress, int>)
    requires KDistinct(S, order, [cur] + queue, inDegree)
    ensures KDistinct(S, order + [cur], queue, inDegree)
    ensures cur in S && cur !in Elems(order) && cur !in Elems(queue)
    ensures Elems(order + [cur]) == Elems(order) + {cur}
    ensures Elems([cur] + queue) == Elems(queue) + {cur}
  {
    assert order + ([cur] + queue) == (order + [cur]) + queue;
    assert (order + ([cur] + queue))[|order|] == cur;
    assert cur in Elems(order + ([cur] + queue));
    assert Elems(order + [cur]) == Elems(order) + {cur};
    assert Elems([cur] + queue) == Elems(queue) + {cur};
    var s := order + ([cur] + queue);
    forall k | 0 <= k < |queue|
      ensures queue[k] != cur
    {
      assert s[|order| + 1 + k] == queue[k];
    }
    forall k | 0 <= k < |order|
      ensures order[k] != cur
    {
      assert s[k] == order[k];
    }
  }

  lemma TakeCounts(g: Graph, S: set<CellAddress>, order: seq<CellAddress>, cur: CellAddress, queue: seq<CellAddress>,
                   inDegree: map<CellAddress, int>)
    requires forall d :: d in S ==> d in inDegree
    requires KCounts(g, S, order, [cur] + queue, inDegree, {})
    requires cur in S && cur !in Elems(order)
    requires Elems(order + [cur]) == Elems(order) + {cur}
    requires Elems([cur] + queue) == Elems(queue) + {cur}
    ensures KCounts(g, S, order + [cur], queue, inDegree, Succ(g, cur))
  {
    var order' := order + [cur];
    assert S - Elems(order') == (S - Elems(order)) - {cur};
    forall d | d in S && d !in Elems(order') && d !in Elems(queue)
      ensures inDegree[d] == |PredsIn(g, S - Elems(order'), d)| + (if d in Succ(g, cur) then 1 else 0)
    {
      PredsRemoveOne(g, S - Elems(order), cur, d);
    }
  }

  lemma TakeOrdered(g: Graph, S: set<CellAddress>, order: seq<CellAddress>, cur: CellAddress, queue: seq<CellAddress>)
    requires KOrdered(g, S, order) && KQueued(g, S, order, [cur] + queue)
    requires Elems([cur] + queue) == Elems(queue) + {cur}
    ensures KOrdered(g, S, order + [cur]) && KQueued(g, S, order + [cur], queue)
  {
    var order' := order + [cur];
    assert Elems(order) <= Elems(order');
    forall k | 0 <= k < |order'|
      ensures PredsIn(g, S, order'[k]) <= Elems(order'[..k])
    {
      if k < |order| {
        assert order'[..k] == order[..k];
      } else {
        assert order'[..k] == order;
      }
    }
  }

  lemma TakeFresh(g: Graph, S: set<CellAddress>, order: seq<CellAddress>, cur: CellAddress, queue: seq<CellAddress>)
    requires KOrdered(g, S, order) && KQueued(g, S, order, [cur] + queue)
    requires cur in S && cur !in Elems(order)
    requires Elems([cur] + queue) == Elems(queue) + {cur}
    requires Elems(order + [cur]) == Elems(order) + {cur}
    ensures forall d :: d in Succ(g, cur) && d in S ==> d !in Elems(order + [cur]) && d !in Elems(queue)
  {
    forall d | d in Succ(g, cur) && d in S
      ensures d !in Elems(order + [cur]) && d !in Elems(queue)
    {
      assert cur in PredsIn(g, S, d);
    }
  }

  /** Taking the head of the queue and emitting it starts the release of its
      dependencies. */
  lemma KahnTake(g: Graph, S: set<CellAddress>, order: seq<CellAddress>, cur: CellAddress, queue: seq<CellAddress>,
                 inDegree: map<CellAddress, int>)
    requires KahnState(g, S, order, [cur] + queue, inDegree)
    ensures ReleaseState(g, S, order + [cur], queue, inDegree, Succ(g, cur))
    ensures |S - Elems(order + [cur])| < |S - Elems(order)|
  {
    TakeDistinct(S, order, cur, queue, inDegree);
    TakeCounts(g, S, order, cur, queue, inDegree);
    TakeOrdered(g, S, order, cur, queue);
    TakeFresh(g, S, order, cur, queue);
    assert S - Elems(order + [cur]) < S - Elems(order);
  }

  /** The release loop of getEvaluationOrder (lib/dependency-graph/index.ts:66-73):
      each dependency of the emitted cell inside the subset loses one
      in-degree and is queued when that reaches 0. */
  method Release(g: Graph, S: set<CellAddress>, order: seq<CellAddress>, queue: seq<CellAddress>,
                 inDegree: map<CellAddress, int>) returns (queue': seq<CellAddress>, inDegree': map<CellAddress, int>)
    requires |order| > 0 && ReleaseState(g, S, order, queue, inDegree, Succ(g, order[|order| - 1]))
    ensures KahnState(g, S, order, queue', inDegree')
  {
    var rest := Succ(g, order[|order| - 1]);
    queue', inDegree' := queue, inDegree;
    while rest != {}
      invariant ReleaseState(g, S, order, queue', inDegree', rest)
      decreases rest
    {
      var d :| d in rest;
      if d in S {
        var deg := inDegree'[d] - 1;
        ReleaseOne(g, S, order, queue', inDegree', rest, d);
        inDegree' := inDegree'[d := deg];
        if deg == 0 {
          queue' := queue' + [d];
        }
      } else {
        ReleaseOutside(g, S, order, queue', inDegree', rest, d);
      }
      rest := rest - {d};
    }
  }

  lemma ReleaseOutside(g: Graph, S: set<CellAddress>, order: seq<CellAddress>, queue: seq<CellAddress>,
                       inDegree: map<CellAddress, int>, rest: set<CellAddress>, d: CellAddress)
    requires ReleaseState(g, S, order, queue, inDegree, rest) && d !in S
    ensures ReleaseState(g, S, order, queue, inDegree, rest - {d})
  {
  }

  lemma ReleaseOne(g: Graph, S: set<CellAddress>, order: seq<CellAddress>, queue: seq<CellAddress>,
                   inDegree: map<CellAddress, int>, rest: set<CellAddress>, d: CellAddress)
    requires ReleaseState(g, S, order, queue, inDegree, rest) && d in rest && d in S
    ensures var deg := inDegree[d] - 1;
            var q := if deg == 0 then queue + [d] else queue;
            ReleaseState(g, S, order, q, inDegree[d := deg], rest - {d})
  {
    var deg := inDegree[d] - 1;
    var q := if deg == 0 then queue + [d] else queue;
    assert deg == |PredsIn(g, S - Elems(order), d)|;
    assert Elems(q) == Elems(queue) + (if deg == 0 then {d} else {});
    if deg == 0 {
      assert order + q == (order + queue) + [d];
      assert PredsIn(g, S - Elems(order), d) == {};
      forall y | y in PredsIn(g, S, d)
        ensures y in Elems(order)
      {
        assert y !in PredsIn(g, S - Elems(order), d);
      }
    }
  }

  /** When the queue runs dry on an acyclic subset, every cell has been
      emitted: a cell left over would have an unemitted reader, and the
      left-over cells would then hold a cycle. */
  lemma KahnEnd(g: Graph, S: set<CellAddress>, order: seq<CellAddress>, inDegree: map<CellAddress, int>)
    requires KDistinct(S, order, [], inDegree) && KCounts(g, S, order, [], inDegree, {})
    requires Acyclic(Restrict(g, S))
    ensures Elems(order) == S
  {
    assert Elems(order) <= S by { assert order + [] == order; }
    var P := S - Elems(order);
    if P != {} {
      forall y | y in P
        ensures HasPredIn(Restrict(g, S), P, y)
      {
        assert y !in Elems([]);
        var z :| z in PredsIn(g, P, y);
        assert y in Succ(Restrict(g, S), z);
      }
      NoSourceMeansCycle(Restrict(g, S), P);
    }
  }

  /** In the order Kahn's loop emits, a cell comes before every cell it reads. */
  lemma KahnOrdered(g: Graph, S: set<CellAddress>, order: seq<CellAddress>, inDegree: map<CellAddress, int>)
    requires KahnState(g, S, order, [], inDegree)
    ensures Distinct(order) && Elems(order) <= S
    ensures forall i, j :: 0 <= i < |order| && 0 <= j < |order| && order[j] in Succ(g, order[i]) ==> i < j
  {
    assert order + [] == order;
    forall i, j | 0 <= i < |order| && 0 <= j < |order| && order[j] in Succ(g, order[i])
      ensures i < j
    {
      assert order[i] in PredsIn(g, S, order[j]);
      var k :| 0 <= k < j && order[k] == order[i];
    }
  }

  /** The cells of u not in done, in u's order. */
  function Leftover(u: seq<CellAddress>, done: set<CellAddress>): (t: seq<CellAddress>)
    ensures Elems(t) == Elems(u) - done
  {
    if u == [] then []
    else
      var init, last := u[..|u| - 1], u[|u| - 1];
      var tail := if last in done then [] else [last];
      assert u == init + [last];
      assert Elems(u) == Elems(init) + {last};
      assert Elems(Leftover(init, done) + tail) == Elems(Leftover(init, done)) + Elems(tail);
      Leftover(init, done) + tail
  }

  /** The fallback of getEvaluationOrder (lib/dependency-graph/index.ts:75-77):
      the cells Kahn's loop did not emit are appended in input order. */
  method Complete(u: seq<CellAddress>, order: seq<CellAddress>) returns (r: seq<CellAddress>)
    requires Distinct(u) && Distinct(order) && Elems(order) <= Elems(u)
    ensures r == order + Leftover(u, Elems(order))
    ensures Distinct(r) && Elems(r) == Elems(u)
  {
    r := order;
    CompleteStart(u, order);
    for i := 0 to |u|
      invariant CompleteInv(u, order, r, i)
    {
      CompleteStep(u, order, r, i);
      if u[i] !in r {
        r := r + [u[i]];
      }
    }
    CompleteEnd(u, order, r);
  }

  /** The fallback loop's invariant after its first i rounds. */
  ghost predicate CompleteInv(u: seq<CellAddress>, order: seq<CellAddress>, r: seq<CellAddress>, i: nat)
  {
    && i <= |u|
    && r == order + Leftover(u[..i], Elems(order))
    && Distinct(r) && Elems(r) == Elems(order) + Elems(u[..i])
  }

  lemma CompleteStart(u: seq<CellAddress>, order: seq<CellAddress>)
    requires Distinct(order)
    ensures CompleteInv(u, order, order, 0)
  {
    assert u[..0] == [] && order + [] == order;
  }

  lemma CompleteEnd(u: seq<CellAddress>, order: seq<CellAddress>, r: seq<CellAddress>)
    requires Elems(order) <= Elems(u) && CompleteInv(u, order, r, |u|)
    ensures r == order + Leftover(u, Elems(order))
    ensures Distinct(r) && Elems(r) == Elems(u)
  {
    assert u[..|u|] == u;
  }

  /** One round of the fallback loop keeps its invariant. */
  lemma CompleteStep(u: seq<CellAddress>, order: seq<CellAddress>, r: seq<CellAddress>, i: nat)
    requires Distinct(u) && i < |u| && CompleteInv(u, order, r, i)
    ensures CompleteInv(u, order, if u[i] in r then r else r + [u[i]], i + 1)
  {
    var x, done := u[i], Elems(order);
    LeftoverSnoc(u, i, done);
    assert Elems(u[..i + 1]) == Elems(u[..i]) + {x} by { assert u[..i + 1] == u[..i] + [x]; }
    assert x !in Elems(u[..i]);
    assert x in r <==> x in done by { assert x in r <==> x in Elems(r); }
    if x !in r {
      DistinctSnoc(r, x);
      assert r + [x] == order + (Leftover(u[..i], done) + [x]);
    } else {
      assert Leftover(u[..i], done) + [] == Leftover(u[..i], done);
    }
  }

  lemma LeftoverSnoc(u: seq<CellAddress>, i: nat, done: set<CellAddress>)
    requires i < |u|
    ensures Leftover(u[..i + 1], done) == Leftover(u[..i], done) + (if u[i] in done then [] else [u[i]])
  {
    assert u[..i + 1][..i] == u[..i];
  }

  lemma DistinctSnoc(s: seq<CellAddress>, x: CellAddress)
    requires Distinct(s) && x !in s
    ensures Distinct(s + [x]) && Elems(s + [x]) == Elems(s) + {x}
  {
  }
}
