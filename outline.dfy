/**
 * The slice of the Leo editor engine that leoflexx.py reads through the
 * bridge: a forest of nodes, each with a gnx (global node index), a
 * headline `h`, a body `b` and ordered children; and its positions, visited
 * in outline order by `c.all_positions()`. The engine itself is not part of
 * this model: these definitions only give the data it hands over a shape, so
 * that properties of `get_outline_list` and `make_tree` can be stated
 * against it.
 */
module Outline {

  /** A node of the engine's outline. */
  datatype VNode = VNode(gnx: string, h: string, b: string, children: seq<VNode>)

  /**
   * A position: `archived` is `p.archivedPosition()`, the child index of the
   * node and of each of its ancestors, outermost first; its length is the
   * node's depth (1 for a top-level node).
   */
  datatype Position = Position(archived: seq<nat>, v: VNode)

  /** One element of the list that `get_outline_list` serializes: `(archivedPosition, gnx, h)`. */
  datatype Entry = Entry(archived: seq<nat>, gnx: string, h: string)

  function Depth(e: Entry): nat
  {
    |e.archived|
  }

  /**
   * The positions of `nodes`, siblings whose parent has archived position
   * `parent` and whose first child index is `first`, in outline order:
   * each node before its descendants, siblings in order.
   */
  function PreOrder(nodes: seq<VNode>, parent: seq<nat>, first: nat): seq<Position>
    decreases nodes
  {
    if nodes == [] then []
    else
      [Position(parent + [first], nodes[0])]
      + PreOrder(nodes[0].children, parent + [first], 0)
      + PreOrder(nodes[1..], parent, first + 1)
  }

  /** `c.all_positions()` over the top-level nodes of a document. */
  function AllPositions(roots: seq<VNode>): seq<Position>
  {
    PreOrder(roots, [], 0)
  }
}
