/**
 * The mind-map document shared by the editor store, the exporters and the
 * preview renderer. Optional string fields of the source (`notes?`, `url?`,
 * `text?`, the palette) are the empty string when absent: every consumer
 * tests them for truthiness, which treats a missing and an empty string alike.
 * A missing `children` array is the empty sequence for the same reason.
 */
module MindMaps {

  datatype Node = Node(
    id: string,
    topic: string,
    text: string,
    notes: string,
    url: string,
    children: seq<Node>)

  datatype MindMap = MindMap(id: string, title: string, root: Node, branchPalette: string)

  /** JavaScript's `a || b` on strings, where the empty string is falsy. */
  function OrElse(a: string, b: string): (r: string)
    ensures r == a || r == b
    ensures r != "" <==> (a != "" || b != "")
    ensures a != "" ==> r == a
  {
    if a != "" then a else b
  }

  /** The number of nodes in the tree rooted at `n`. */
  function Size(n: Node): (k: nat)
    ensures k >= 1
  {
    1 + SizeAll(n.children)
  }

  function SizeAll(ns: seq<Node>): nat {
    if ns == [] then 0 else SizeAll(ns[..|ns| - 1]) + Size(ns[|ns| - 1])
  }

  /** The number of nodes in the tree rooted at `n` that have at least one child. */
  function Branches(n: Node): nat {
    (if n.children == [] then 0 else 1) + BranchesAll(n.children)
  }

  function BranchesAll(ns: seq<Node>): nat {
    if ns == [] then 0 else BranchesAll(ns[..|ns| - 1]) + Branches(ns[|ns| - 1])
  }
}
