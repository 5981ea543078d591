/** The fragment of the ESTree syntax tree the two rules look at, with parent
    links expressed as ancestor paths, and the node-shape classifiers both
    rules are built from. */
module Ast {
  import opened Wrappers

  /** A syntax-tree node. Each variant carries the fields the rules read;
      `Other` stands for every node type the rules never inspect, with its
      ESTree `type` tag and its children. */
  datatype Node =
    | Await(argument: Node)
    | ArrowFn(params: seq<Node>, body: Node)
    | Return(result: Option<Node>)
    | Call(callee: Node, arguments: seq<Node>)
    | Member(obj: Node, property: Node)
    | Ident(name: string)
    | VarDeclarator(id: Node, init: Option<Node>)
    | Other(kind: string, children: seq<Node>)

  /** The ESTree `type` tag of a node. */
  function TypeName(n: Node): string
  {
    match n
    case Await(_) => "AwaitExpression"
    case ArrowFn(_, _) => "ArrowFunctionExpression"
    case Return(_) => "ReturnStatement"
    case Call(_, _) => "CallExpression"
    case Member(_, _) => "MemberExpression"
    case Ident(_) => "Identifier"
    case VarDeclarator(_, _) => "VariableDeclarator"
    case Other(kind, _) => kind
  }

  const ModelledKinds: set<string> :=
    {"AwaitExpression", "ArrowFunctionExpression", "ReturnStatement", "CallExpression",
     "MemberExpression", "Identifier", "VariableDeclarator"}

  /** A node's tag agrees with its shape: an `Other` node never claims the tag
      of a node type that has its own variant. Parsers guarantee this. */
  predicate TagConsistent(n: Node)
  {
    n.Other? ==> n.kind !in ModelledKinds
  }

  /** The direct children of a node, in source order. */
  function Children(n: Node): seq<Node>
  {
    match n
    case Await(a) => [a]
    case ArrowFn(ps, b) => ps + [b]
    case Return(r) => (match r case Some(x) => [x] case None => [])
    case Call(c, args) => [c] + args
    case Member(o, p) => [o, p]
    case Ident(_) => []
    case VarDeclarator(id, init) => [id] + (match init case Some(x) => [x] case None => [])
    case Other(_, cs) => cs
  }

  /** An ancestor path: `p[0]` is a node, `p[i + 1]` is the parent of `p[i]`,
      and the last element is the root, which has no parent. */
  type Path = p: seq<Node> | |p| > 0 witness [Ident("")]

  /** An ancestor path of a node that has a parent. */
  type ChildPath = p: seq<Node> | |p| > 1 witness [Ident(""), Other("Program", [])]

  /** Every link of the path is a real parent-child link. */
  predicate WellFormed(p: seq<Node>)
  {
    forall i :: 0 <= i < |p| - 1 ==> p[i] in Children(p[i + 1])
  }

  /** `node.parent`, which is `undefined` at the root. */
  function Parent(p: Path): (r: Option<Node>)
    ensures r.Some? <==> |p| > 1
  {
    if |p| > 1 then Some(p[1]) else None
  }

  /** `node.parent.parent`, reached through a parent that may be absent. */
  function Grandparent(p: Path): (r: Option<Node>)
    ensures r.Some? <==> |p| > 2
  {
    if |p| > 2 then Some(p[2]) else None
  }

  // The classifiers accept a possibly absent node and answer false for it.

  predicate IsCallExpression(n: Option<Node>)
  {
    n.Some? && n.value.Call?
  }

  predicate IsVariableDeclarator(n: Option<Node>)
  {
    n.Some? && n.value.VarDeclarator?
  }

  /** The node is a member access `<object>.then`, the shape of an explicit
      promise chain. */
  predicate HasThenProperty(n: Option<Node>)
  {
    n.Some? && n.value.Member? && n.value.property.Ident? && n.value.property.name == "then"
  }
}
