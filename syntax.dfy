/** A model of the part of Python's abstract syntax tree that the boundary
    extractor walks.  The parser itself is not modelled: a parsed function is
    given as a value of type Node.  Field names follow Python's `ast` module
    where Dafny allows it (a destructor name must have one type across all
    constructors, so some fields are renamed). */
module Syntax {
  import opened Wrappers

  /** Comparison operators (Python's `cmpop`). */
  datatype CmpOp = Eq | NotEq | Lt | LtE | Gt | GtE | Is | IsNot | In | NotIn

  /** Arithmetic operators (Python's `operator`). */
  datatype BinOperator = Add | Sub | Mult | Div | FloorDiv | Mod | Pow

  /** Unary operators (Python's `unaryop`). */
  datatype UnaryOperator = UAdd | USub | Not | Invert

  /** Boolean operators (Python's `boolop`). */
  datatype BoolOperator = And | Or

  /** The value carried by a Constant node.  Python's `bool` is a subclass
      of `int`, so BoolConst counts as numeric; floats, complex numbers and
      bytes are not part of this model. */
  datatype ConstValue = IntConst(i: int) | BoolConst(b: bool) | StrConst(s: string) | NoneConst

  datatype Node =
    | Module(body: seq<Node>)
    | FunctionDef(name: string, params: seq<string>, body: seq<Node>, decorators: seq<Node>)
    | If(test: Node, body: seq<Node>, orelse: seq<Node>)
    | While(test: Node, body: seq<Node>, orelse: seq<Node>)
    | For(target: Node, iter: Node, body: seq<Node>, orelse: seq<Node>)
    | Return(returned: Option<Node>)
    | Assign(targets: seq<Node>, assignedValue: Node)
    | Expr(expr: Node)
    | Pass
    | BoolOp(boolOp: BoolOperator, values: seq<Node>)
    | BinOp(left: Node, binOp: BinOperator, right: Node)
    | UnaryOp(unaryOp: UnaryOperator, operand: Node)
    | IfExp(test: Node, whenTrue: Node, whenFalse: Node)
    | Compare(left: Node, ops: seq<CmpOp>, comparators: seq<Node>)
    | Call(func: Node, args: seq<Node>)
    | Name(id: string)
    | Constant(constant: ConstValue)

  /** The child nodes that a generic visit walks, in the order of the node's
      fields.  Operators, identifiers and constant values are not nodes. */
  function Children(n: Node): (cs: seq<Node>)
    ensures forall j :: 0 <= j < |cs| ==> cs[j] < n
  {
    match n
    case Module(body) => body
    case FunctionDef(_, _, body, decorators) => body + decorators
    case If(test, body, orelse) => [test] + body + orelse
    case While(test, body, orelse) => [test] + body + orelse
    case For(target, iter, body, orelse) => [target, iter] + body + orelse
    case Return(returned) => if returned.Some? then [returned.value] else []
    case Assign(targets, assignedValue) => targets + [assignedValue]
    case Expr(expr) => [expr]
    case Pass => []
    case BoolOp(_, values) => values
    case BinOp(left, _, right) => [left, right]
    case UnaryOp(_, operand) => [operand]
    case IfExp(test, whenTrue, whenFalse) => [test, whenTrue, whenFalse]
    case Compare(left, _, comparators) => [left] + comparators
    case Call(func, args) => [func] + args
    case Name(_) => []
    case Constant(_) => []
  }

  /** The value a node contributes as a boundary: present exactly when the
      node is a Constant whose value is an int (or a bool, read as 0 or 1). */
  function NumericLiteral(n: Node): (v: Option<int>)
    ensures v.Some? <==> n.Constant? && (n.constant.IntConst? || n.constant.BoolConst?)
    ensures n.Constant? && n.constant.IntConst? ==> v == Some(n.constant.i)
    ensures n.Constant? && n.constant.BoolConst? ==> v == Some(if n.constant.b then 1 else 0)
  {
    match n
    case Constant(IntConst(i)) => Some(i)
    case Constant(BoolConst(b)) => Some(if b then 1 else 0)
    case _ => None
  }
}
