/** The few syntax-tree shapes the transform inspects or builds, the places
    ("paths") where they sit in the tree, and the errors it raises. The
    syntax tree itself, scope analysis and tree mutation belong to the host
    compiler; a place in the tree is an opaque location. */
module Syntax {
  import opened Results
  import opened Int32

  datatype Node =
    | Identifier(name: string)
    | CallExpression(callee: Node, arguments: seq<Node>)
    | ObjectExpression(properties: seq<Property>)
    | NumericLiteral(value: int)
    /** `object.property`, or `object[property]` when `computed` */
    | MemberExpression(object: Node, property: Node, computed: bool)
    | BinaryExpression(operator: string, left: Node, right: Node)
    /** `id = init` inside a `var`/`let`/`const` declaration */
    | VariableDeclarator(id: Node, init: Option<Node>)
    /** every other kind of node, by its type name */
    | OtherNode(kind: string)

  datatype Property =
    | ObjectProperty(key: Node, value: Node)
    /** an object method or a spread element */
    | OtherProperty(kind: string)

  /** The node's type name, as error messages print it. */
  function TypeName(n: Node): string
  {
    match n
    case Identifier(_) => "Identifier"
    case CallExpression(_, _) => "CallExpression"
    case ObjectExpression(_) => "ObjectExpression"
    case NumericLiteral(_) => "NumericLiteral"
    case MemberExpression(_, _, _) => "MemberExpression"
    case BinaryExpression(_, _, _) => "BinaryExpression"
    case VariableDeclarator(_, _) => "VariableDeclarator"
    case OtherNode(kind) => kind
  }

  /** An opaque place in the tree. */
  type Loc = nat

  /** A node together with its place in the tree. */
  datatype Path = Path(loc: Loc, node: Node)

  /** A use of a bound name, seen through the nodes enclosing the identifier:
      its parent and its grandparent. */
  datatype Use = Use(parent: Path, grandparent: Path)

  /** What the binding resolver knows: for each bound name, its uses in
      source order. */
  type ReferenceIndex = map<string, seq<Use>>

  datatype Error =
    /** an error raised with a code frame at a place in the tree */
    | CodeFrameError(at: Loc, message: string)
    /** the scope has no binding for the name, so its uses cannot be looked up */
    | MissingBinding(name: string)

  /** The value of the expressions the transform emits, the identifiers bound
      by `env`: JavaScript semantics of `>>`, `&`, `<<` and `|` on integers. */
  function Eval(e: Node, env: map<string, int>): Option<int>
  {
    match e
    case Identifier(x) => if x in env then Some(env[x]) else None
    case NumericLiteral(v) => Some(v)
    case BinaryExpression(op, l, r) =>
      (match (Eval(l, env), Eval(r, env))
       case (Some(a), Some(b)) =>
         if op == ">>" then Some(ShiftRight(a, b))
         else if op == "&" then Some(BitAnd(a, b))
         else if op == "<<" then Some(ShiftLeft(a, b))
         else if op == "|" then Some(BitOr(a, b))
         else None
       case _ => None)
    case _ => None
  }
}
