/**
 * The named-operations validation rule: every operation definition must
 * carry a name. Reporting an error is modelled as returning it.
 */
module Rules {
  import opened Common

  /** Identity of an AST node; an error carries the node it is about. */
  type NodeId = nat

  /** A GraphQLError as reported to the validation context: its message and the node it is about. */
  datatype GraphQLError = GraphQLError(message: string, node: NodeId)

  /** The nodes the validation visitor walks; only operation definitions matter here. */
  datatype AstNode =
    | OperationDefinition(id: NodeId, name: Option<string>)
    | OtherNode(id: NodeId)

  const OperationNameMessage := "All operations must be named"

  /**
   * The visitor of OperationsMustHaveNames applied to one node: an unnamed
   * operation definition yields the one error, carrying that node; any other
   * node yields nothing.
   */
  function OperationsMustHaveNames(node: AstNode): (errors: seq<GraphQLError>)
    ensures |errors| <= 1
    ensures errors != [] <==> node.OperationDefinition? && node.name.None?
    ensures errors != [] ==> errors[0] == GraphQLError(OperationNameMessage, node.id)
  {
    match node
    case OperationDefinition(id, name) =>
      if name.None? then [GraphQLError(OperationNameMessage, id)] else []
    case OtherNode(_) => []
  }

  predicate IsUnnamedOperation(node: AstNode)
  {
    node.OperationDefinition? && node.name.None?
  }

  /** The errors of a visit over a list of nodes, in visiting order. */
  function VisitAll(nodes: seq<AstNode>): seq<GraphQLError>
  {
    if nodes == [] then [] else VisitAll(nodes[..|nodes| - 1]) + OperationsMustHaveNames(nodes[|nodes| - 1])
  }

  /** The unnamed operations among the nodes, in order. */
  function UnnamedOperations(nodes: seq<AstNode>): seq<AstNode>
  {
    if nodes == [] then []
    else UnnamedOperations(nodes[..|nodes| - 1])
         + (if IsUnnamedOperation(nodes[|nodes| - 1]) then [nodes[|nodes| - 1]] else [])
  }

  /**
   * Over a whole document there is exactly one error per unnamed operation,
   * in order, each carrying its operation.
   */
  lemma {:induction false} OneErrorPerUnnamedOperation(nodes: seq<AstNode>)
    ensures |VisitAll(nodes)| == |UnnamedOperations(nodes)|
    ensures forall i :: 0 <= i < |VisitAll(nodes)| ==>
      VisitAll(nodes)[i] == GraphQLError(OperationNameMessage, UnnamedOperations(nodes)[i].id)
  {
    if nodes != [] {
      OneErrorPerUnnamedOperation(nodes[..|nodes| - 1]);
    }
  }
}
