/** The stack-driven graph search that the analyses share. */
module Exploration {
  import opened Sequences

  /** No step leaves c, except to a node that is not allowed. */
  ghost predicate IsClosed<T>(adj: map<T, seq<T>>, allowed: set<T>, c: set<T>) {
    forall a, b :: a in c && a in adj && b in adj[a] && b in allowed ==> b in c
  }

  /** Every node of s lies in every closed set that holds the seed. */
  ghost predicate Forced<T(!new)>(adj: map<T, seq<T>>, allowed: set<T>, seed: T, s: seq<T>) {
    forall c: set<T> :: IsClosed(adj, allowed, c) && seed in c ==> forall x :: x in s ==> x in c
  }

  lemma VisitKeepsForced<T(!new)>(adj: map<T, seq<T>>, allowed: set<T>, seed: T,
                                  order: seq<T>, stack: seq<T>, cur: T, nbrs: seq<T>)
    requires Forced(adj, allowed, seed, order) && Forced(adj, allowed, seed, stack + [cur])
    requires forall b :: b in nbrs ==> cur in adj && b in adj[cur] && b in allowed
    ensures Forced(adj, allowed, seed, order + [cur])
    ensures Forced(adj, allowed, seed, stack) && Forced(adj, allowed, seed, stack + nbrs)
  {
    forall c: set<T> | IsClosed(adj, allowed, c) && seed in c
      ensures forall x :: x in order + [cur] + stack + nbrs ==> x in c
    {
      assert cur in stack + [cur];
      assert forall x :: x in stack ==> x in stack + [cur];
    }
    var all := order + [cur] + stack + nbrs;
    assert forall x :: x in order + [cur] || x in stack || x in stack + nbrs ==> x in all;
  }

  /** Steps from what was visited lead to visited or stacked nodes. */
  ghost predicate Frontier<T>(adj: map<T, seq<T>>, allowed: set<T>, order: seq<T>, visited: set<T>, stack: seq<T>) {
    forall a, b :: a in order && a in adj && b in adj[a] && b in allowed ==> b in visited || b in stack
  }

  lemma VisitKeepsFrontier<T>(adj: map<T, seq<T>>, allowed: set<T>,
                              order: seq<T>, visited: set<T>, stack: seq<T>, cur: T, nbrs: seq<T>)
    requires Frontier(adj, allowed, order, visited, stack + [cur])
    requires cur in adj ==> forall b :: b in adj[cur] && b in allowed ==> b in visited || b == cur || b in nbrs
    ensures Frontier(adj, allowed, order + [cur], visited + {cur}, stack + nbrs)
  {
  }

  lemma DropVisited<T>(adj: map<T, seq<T>>, allowed: set<T>, order: seq<T>, visited: set<T>, stack: seq<T>, cur: T)
    requires Frontier(adj, allowed, order, visited, stack + [cur]) && cur in visited
    ensures Frontier(adj, allowed, order, visited, stack)
  {
  }

  /** One more visit keeps the bookkeeping of visits and leaves fewer nodes to visit. */
  lemma VisitOne<T>(allowed: set<T>, before: set<T>, order: seq<T>, cur: T)
    requires Distinct(order) && Elements(order) !! before
    requires cur in allowed && cur !in before + Elements(order)
    ensures Distinct(order + [cur]) && Elements(order + [cur]) !! before
    ensures before + Elements(order) + {cur} == before + Elements(order + [cur])
    ensures |allowed - (before + Elements(order) + {cur})| < |allowed - (before + Elements(order))|
  {
    AppendFresh(order, cur);
    var rest := allowed - (before + Elements(order));
    assert allowed - (before + Elements(order) + {cur}) == rest - {cur};
  }

  lemma ExhaustedIsClosed<T>(adj: map<T, seq<T>>, allowed: set<T>, before: set<T>, order: seq<T>)
    requires IsClosed(adj, allowed, before)
    requires Frontier(adj, allowed, order, before + Elements(order), [])
    ensures IsClosed(adj, allowed, before + Elements(order))
    ensures forall x :: x in Elements(order) ==> x in order
  {
  }

  /** The node at position i is a neighbour of one visited earlier. */
  ghost predicate IsReachedAt<T>(adj: map<T, seq<T>>, order: seq<T>, i: nat)
    requires i < |order|
  {
    exists j :: 0 <= j < i && order[j] in adj && order[i] in adj[order[j]]
  }

  ghost predicate HasNeighbourIn<T>(adj: map<T, seq<T>>, order: seq<T>, x: T) {
    exists j :: 0 <= j < |order| && order[j] in adj && x in adj[order[j]]
  }

  /** The search goes along the steps: from the seed, always to a neighbour of a node visited before. */
  ghost predicate IsGrown<T>(adj: map<T, seq<T>>, seed: T, order: seq<T>) {
    (order != [] ==> order[0] == seed) && forall i: nat :: 0 < i < |order| ==> IsReachedAt(adj, order, i)
  }

  /** What waits on the stack is the seed, or a neighbour of a visited node. */
  ghost predicate IsFed<T>(adj: map<T, seq<T>>, seed: T, order: seq<T>, stack: seq<T>) {
    forall k :: 0 <= k < |stack| ==> if order == [] then stack[k] == seed else HasNeighbourIn(adj, order, stack[k])
  }

  ghost predicate IsGrowing<T>(adj: map<T, seq<T>>, seed: T, order: seq<T>, stack: seq<T>) {
    IsGrown(adj, seed, order) && IsFed(adj, seed, order, stack) && (order == [] ==> |stack| <= 1)
  }

  lemma GrowsByOne<T>(adj: map<T, seq<T>>, seed: T, order: seq<T>, cur: T)
    requires IsGrown(adj, seed, order) && if order == [] then cur == seed else HasNeighbourIn(adj, order, cur)
    ensures IsGrown(adj, seed, order + [cur])
  {
    var longer := order + [cur];
    forall i: nat | 0 < i < |longer| ensures IsReachedAt(adj, longer, i) {
      if i < |order| {
        assert IsReachedAt(adj, order, i);
        var j :| 0 <= j < i && order[j] in adj && order[i] in adj[order[j]];
        assert longer[j] in adj && longer[i] in adj[longer[j]];
      } else {
        var j :| 0 <= j < |order| && order[j] in adj && cur in adj[order[j]];
        assert longer[j] in adj && longer[i] in adj[longer[j]];
      }
    }
  }

  lemma NeighbourStays<T>(adj: map<T, seq<T>>, order: seq<T>, cur: T, x: T)
    requires HasNeighbourIn(adj, order, x) || (cur in adj && x in adj[cur])
    ensures HasNeighbourIn(adj, order + [cur], x)
  {
    var longer := order + [cur];
    if HasNeighbourIn(adj, order, x) {
      var j :| 0 <= j < |order| && order[j] in adj && x in adj[order[j]];
      assert longer[j] in adj && x in adj[longer[j]];
    } else {
      assert longer[|order|] in adj && x in adj[longer[|order|]];
    }
  }

  lemma VisitKeepsGrowing<T>(adj: map<T, seq<T>>, seed: T, order: seq<T>, stack: seq<T>, cur: T, nbrs: seq<T>)
    requires IsGrowing(adj, seed, order, stack + [cur])
    requires forall b :: b in nbrs ==> cur in adj && b in adj[cur]
    ensures IsGrowing(adj, seed, order + [cur], stack + nbrs)
  {
    assert (stack + [cur])[|stack|] == cur;
    GrowsByOne(adj, seed, order, cur);
    forall k | 0 <= k < |stack + nbrs| ensures HasNeighbourIn(adj, order + [cur], (stack + nbrs)[k]) {
      if k < |stack| {
        var x := (stack + [cur])[k];
        assert order != [] && HasNeighbourIn(adj, order, x);
        NeighbourStays(adj, order, cur, x);
      } else {
        var x := nbrs[k - |stack|];
        assert x in nbrs;
        NeighbourStays(adj, order, cur, x);
      }
    }
  }

  lemma DropKeepsGrowing<T>(adj: map<T, seq<T>>, seed: T, order: seq<T>, stack: seq<T>, cur: T)
    requires IsGrowing(adj, seed, order, stack + [cur])
    ensures IsGrowing(adj, seed, order, stack)
  {
    assert forall k :: 0 <= k < |stack| ==> (stack + [cur])[k] == stack[k];
  }

  lemma SearchBegins<T(!new)>(adj: map<T, seq<T>>, allowed: set<T>, before: set<T>, seed: T)
    ensures Forced(adj, allowed, seed, []) && Forced(adj, allowed, seed, [seed])
    ensures Frontier(adj, allowed, [], before, [seed]) && IsGrowing(adj, seed, [], [seed])
    ensures Elements<T>([]) == {} && Distinct<T>([])
  {
  }

  /**
   * Visits everything that can be reached from the seed through nodes not visited before.
   * Together with the earlier visits the result is closed, and nothing unforced is visited.
   */
  method Explore<T(==,!new)>(adj: map<T, seq<T>>, allowed: set<T>, before: set<T>, seed: T)
    returns (visited: set<T>, order: seq<T>)
    requires seed in allowed && seed !in before && before <= allowed
    requires IsClosed(adj, allowed, before)
    ensures visited == before + Elements(order) && visited <= allowed
    ensures seed in order && Distinct(order) && Elements(order) !! before
    ensures IsClosed(adj, allowed, visited)
    ensures Forced(adj, allowed, seed, order)
    ensures IsGrown(adj, seed, order)
  {
    hide Forced, Frontier, Distinct, IsClosed, Elements, IsGrowing, IsGrown;
    visited, order := before, [];
    var stack := [seed];
    SearchBegins(adj, allowed, before, seed);
    while stack != []
      invariant visited == before + Elements(order) && visited <= allowed
      invariant Distinct(order) && Elements(order) !! before
      invariant forall x :: x in stack ==> x in allowed
      invariant seed in visited || seed in stack
      invariant Forced(adj, allowed, seed, order) && Forced(adj, allowed, seed, stack)
      invariant Frontier(adj, allowed, order, visited, stack)
      invariant IsGrowing(adj, seed, order, stack)
      decreases |allowed - visited|, |stack|
    {
      var cur := stack[|stack| - 1];
      ghost var popped := stack;
      stack := stack[..|stack| - 1];
      assert popped == stack + [cur];
      if cur in visited {
        VisitKeepsForced(adj, allowed, seed, order, stack, cur, []);
        DropVisited(adj, allowed, order, visited, stack, cur);
        DropKeepsGrowing(adj, seed, order, stack, cur);
      } else {
        VisitOne(allowed, before, order, cur);
        var nbrs := if cur in adj then Unvisited(adj[cur], allowed, visited + {cur}) else [];
        VisitKeepsFrontier(adj, allowed, order, visited, stack, cur, nbrs);
        visited := visited + {cur};
        VisitKeepsForced(adj, allowed, seed, order, stack, cur, nbrs);
        VisitKeepsGrowing(adj, seed, order, stack, cur, nbrs);
        order := order + [cur];
        stack := stack + nbrs;
      }
    }
    ExhaustedIsClosed(adj, allowed, before, order);
    GrowingIsGrown(adj, seed, order);
  }

  lemma GrowingIsGrown<T>(adj: map<T, seq<T>>, seed: T, order: seq<T>)
    requires IsGrowing(adj, seed, order, [])
    ensures IsGrown(adj, seed, order)
  {
  }

  /** The neighbours that get pushed: allowed and not yet visited, in order. */
  function Unvisited<T(==,!new)>(nbrs: seq<T>, allowed: set<T>, visited: set<T>): (r: seq<T>)
    ensures forall b :: b in r <==> b in nbrs && b in allowed && b !in visited
  {
    if nbrs == [] then []
    else (if nbrs[0] in allowed && nbrs[0] !in visited then [nbrs[0]] else []) + Unvisited(nbrs[1..], allowed, visited)
  }
}
