/** The graph handed to the renderer: a non-strict directed graph whose
    `node` statements with the same key overwrite each other's label and
    shape, and whose `edge` statements are kept one by one, repeats
    included. */
module Graph {

  datatype Shape = Box | Ellipse

  /** What the renderer shows for one node key. */
  datatype NodeEntry = NodeEntry(caption: string, shape: Shape)

  /** A directed edge (tail key, head key). */
  type Edge = (string, string)

  /** The value of a graph: the latest entry of every node key, and every
      edge in the order it was added. */
  datatype GraphState = GraphState(nodes: map<string, NodeEntry>, edges: seq<Edge>)

  const EmptyGraph: GraphState := GraphState(map[], [])

  class Digraph {
    var nodes: map<string, NodeEntry>
    var edges: seq<Edge>

    /** A graph with no nodes and no edges. */
    constructor ()
      ensures nodes == map[] && edges == []
    {
      nodes := map[];
      edges := [];
    }

    function State(): GraphState
      reads this
    {
      GraphState(nodes, edges)
    }

    /** `graph.node(key, label=..., shape=...)`: the key now shows this
        entry; every other key keeps its entry; the edges are untouched. */
    method AddNode(key: string, caption: string, shape: Shape)
      modifies this
      ensures nodes == old(nodes)[key := NodeEntry(caption, shape)]
      ensures nodes.Keys == old(nodes.Keys) + {key}
      ensures forall k :: k in old(nodes) && k != key ==> nodes[k] == old(nodes)[k]
      ensures edges == old(edges)
    {
      nodes := nodes[key := NodeEntry(caption, shape)];
    }

    /** `graph.edge(tail, head)`: one more edge at the end, duplicates kept;
        the nodes are untouched. */
    method AddEdge(tail: string, head: string)
      modifies this
      ensures edges == old(edges) + [(tail, head)]
      ensures nodes == old(nodes)
    {
      edges := edges + [(tail, head)];
    }
  }
}
