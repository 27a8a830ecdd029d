/**
 * Reachability in a finite graph over names, as the least set that contains
 * the start node and is closed under the edges. Both FOLLOW walks of the
 * checker visit exactly such a set.
 */
module Closure {

  /** Each node with the nodes it leads to; a node without an entry has no edges. */
  type Graph = map<string, set<string>>

  function Edges(G: Graph, y: string): set<string>
  {
    if y in G then G[y] else {}
  }

  /** Every node mentioned by the graph. */
  function Nodes(G: Graph): set<string>
  {
    G.Keys + (set y, z | y in G && z in G[y] :: z)
  }

  ghost predicate Closed(G: Graph, C: set<string>)
  {
    forall y :: y in C ==> Edges(G, y) <= C
  }

  /** The nodes that lie in every closed set containing `x`. */
  ghost function Reach(G: Graph, x: string): (R: set<string>)
    ensures R <= Nodes(G) + {x}
  {
    set y | y in Nodes(G) + {x} && forall C :: Closed(G, C) && x in C ==> y in C
  }

  lemma ReachStart(G: Graph, x: string)
    ensures x in Reach(G, x)
  {
  }

  lemma ReachClosed(G: Graph, x: string)
    ensures Closed(G, Reach(G, x))
  {
    forall y, z | y in Reach(G, x) && z in Edges(G, y)
      ensures z in Reach(G, x)
    {
      assert z in Nodes(G);
      forall C | Closed(G, C) && x in C
        ensures z in C
      {
        assert y in C;
      }
    }
  }

  /** Reach is the least closed set containing its start. */
  lemma ReachLeast(G: Graph, x: string, C: set<string>)
    requires Closed(G, C) && x in C
    ensures Reach(G, x) <= C
  {
  }

  /** Whatever is reachable from a reachable node is reachable. */
  lemma ReachTrans(G: Graph, x: string, y: string)
    requires y in Reach(G, x)
    ensures Reach(G, y) <= Reach(G, x)
  {
    ReachClosed(G, x);
    ReachLeast(G, y, Reach(G, x));
  }

  /** Following one edge stays within what is reachable. */
  lemma ReachEdge(G: Graph, x: string, y: string)
    requires y in Edges(G, x)
    ensures Reach(G, y) <= Reach(G, x)
  {
    ReachStart(G, x);
    ReachClosed(G, x);
    ReachTrans(G, x, y);
  }
}
