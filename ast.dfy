/**
 * The second node set, used by the machine-code backend and the 32-bit
 * assembly backend: cell and pointer changes carry a direction in the node
 * type and a count in `n`.
 */
module Ast {
  datatype Node =
    | Add(n: int)
    | Subtract(n: int)
    | Forward(n: int)
    | Back(n: int)
    | Output(n: int)
    | Input(n: int)
    | Loop(body: seq<Node>)

  /** An `Output` or `Input` node occurs in the tree, at any depth. */
  predicate ContainsIo(nodes: seq<Node>)
    decreases nodes, 1
  {
    exists i :: 0 <= i < |nodes| && NodeContainsIo(nodes[i])
  }

  predicate NodeContainsIo(node: Node)
    decreases node, 0
  {
    match node
    case Output(_) => true
    case Input(_) => true
    case Loop(body) => ContainsIo(body)
    case _ => false
  }
}
