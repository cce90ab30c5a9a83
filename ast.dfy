/**
 * The ESTree abstract syntax tree that both engines walk.  Every node carries
 * a unique `nid`, which stands for JavaScript object identity.
 *
 * Field names follow ESTree.  Dafny refuses one field name with two types, so
 * where ESTree reuses a name the model renames one side: list-shaped bodies are
 * `statements` (Program, BlockStatement, SwitchCase.consequent) or `members`
 * (ClassBody), ReturnStatement.argument is `returned`, Literal.value is
 * `literal`, the `name` of an import/export specifier is `alias`, `object` is
 * `obj`, `label` is `labelId` and the `method` flag of a Property is `isMethod`.  Fields that ESTree
 * allows to be null are `Option`s.
 */
module Ast {
  import opened Base

  type NodeId = nat

  datatype DeclKind = Var | Let | Const

  /** The value of a Literal: a string, or anything else (number, boolean, null, RegExp). */
  datatype LiteralValue = StringValue(text: string) | OtherValue

  datatype Node =
    | Program(nid: NodeId, statements: seq<Node>)
    | Identifier(nid: NodeId, name: string)
    | Literal(nid: NodeId, literal: LiteralValue, raw: Option<string>)
    | DirectiveStatement(nid: NodeId, raw: Option<string>)
    | ExpressionStatement(nid: NodeId, expression: Node)
    | BlockStatement(nid: NodeId, statements: seq<Node>)
    | EmptyStatement(nid: NodeId)
    | DebuggerStatement(nid: NodeId)
    | IfStatement(nid: NodeId, test: Option<Node>, consequent: Node, alternate: Option<Node>)
    | LabeledStatement(nid: NodeId, labelId: Option<Node>, body: Node)
    | BreakStatement(nid: NodeId, labelId: Option<Node>)
    | ContinueStatement(nid: NodeId, labelId: Option<Node>)
    | WithStatement(nid: NodeId, obj: Node, body: Node)
    | SwitchStatement(nid: NodeId, discriminant: Node, cases: seq<Node>)
    | SwitchCase(nid: NodeId, test: Option<Node>, statements: seq<Node>)
    | ReturnStatement(nid: NodeId, returned: Option<Node>)
    | ThrowStatement(nid: NodeId, argument: Node)
    | TryStatement(nid: NodeId, block: Node, handlers: seq<Node>, finalizer: Option<Node>)
    | CatchClause(nid: NodeId, param: Node, body: Node)
    | WhileStatement(nid: NodeId, test: Option<Node>, body: Node)
    | DoWhileStatement(nid: NodeId, body: Node, test: Option<Node>)
    | ForStatement(nid: NodeId, init: Option<Node>, test: Option<Node>, update: Option<Node>, body: Node)
    | ForInStatement(nid: NodeId, left: Node, right: Node, body: Node)
    | ForOfStatement(nid: NodeId, left: Node, right: Node, body: Node)
    | FunctionDeclaration(nid: NodeId, id: Option<Node>, params: seq<Node>, body: Node)
    | FunctionExpression(nid: NodeId, id: Option<Node>, params: seq<Node>, body: Node)
    | ArrowFunctionExpression(nid: NodeId, params: seq<Node>, body: Node)
    | VariableDeclaration(nid: NodeId, declarations: seq<Node>, kind: DeclKind)
    | VariableDeclarator(nid: NodeId, id: Option<Node>, init: Option<Node>)
    | ThisExpression(nid: NodeId)
    | ArrayExpression(nid: NodeId, elements: seq<Option<Node>>)
    | ObjectExpression(nid: NodeId, properties: seq<Node>)
    | Property(nid: NodeId, key: Node, value: Node, computed: bool, shorthand: bool, isMethod: bool)
    | MethodDefinition(nid: NodeId, key: Node, value: Node, computed: bool)
    | UnaryExpression(nid: NodeId, argument: Node)
    | UpdateExpression(nid: NodeId, argument: Node)
    | BinaryExpression(nid: NodeId, left: Node, right: Node)
    | LogicalExpression(nid: NodeId, left: Node, right: Node)
    | AssignmentExpression(nid: NodeId, operator: string, left: Node, right: Node)
    | ConditionalExpression(nid: NodeId, test: Option<Node>, consequent: Node, alternate: Option<Node>)
    | CallExpression(nid: NodeId, callee: Node, arguments: seq<Node>)
    | NewExpression(nid: NodeId, callee: Node, arguments: seq<Node>)
    | MemberExpression(nid: NodeId, obj: Node, property: Node, computed: bool)
    | SequenceExpression(nid: NodeId, expressions: seq<Node>)
    | SpreadElement(nid: NodeId, argument: Node)
    | ArrayPattern(nid: NodeId, elements: seq<Option<Node>>)
    | ObjectPattern(nid: NodeId, properties: seq<Node>)
    | AssignmentPattern(nid: NodeId, left: Node, right: Node)
    | ClassDeclaration(nid: NodeId, id: Option<Node>, superClass: Option<Node>, body: Node)
    | ClassExpression(nid: NodeId, id: Option<Node>, superClass: Option<Node>, body: Node)
    | ClassBody(nid: NodeId, members: seq<Node>)
    | ImportDeclaration(nid: NodeId, specifiers: seq<Node>, source: Option<Node>)
    | ImportSpecifier(nid: NodeId, id: Option<Node>, alias: Option<Node>)
    | ImportDefaultSpecifier(nid: NodeId, id: Option<Node>)
    | ImportNamespaceSpecifier(nid: NodeId, id: Option<Node>)
    | ExportDeclaration(nid: NodeId, declaration: Option<Node>, specifiers: seq<Node>, source: Option<Node>)
    | ExportSpecifier(nid: NodeId, id: Option<Node>, alias: Option<Node>)

  /**
   * One visitor-key slot of a node: a single child that may be null, an array
   * of children, or an array with holes (ArrayExpression and ArrayPattern elements).
   */
  datatype Field = One(node: Option<Node>) | Many(nodes: seq<Node>) | Sparse(elements: seq<Option<Node>>)

  /** The node's child slots in visitor-key order (estraverse's keys for the ES6 types). */
  function Fields(n: Node): seq<Field>
  {
    match n
    case Program(_, b) => [Many(b)]
    case Identifier(_, _) => []
    case Literal(_, _, _) => []
    case DirectiveStatement(_, _) => []
    case ExpressionStatement(_, e) => [One(Some(e))]
    case BlockStatement(_, b) => [Many(b)]
    case EmptyStatement(_) => []
    case DebuggerStatement(_) => []
    case IfStatement(_, t, c, a) => [One(t), One(Some(c)), One(a)]
    case LabeledStatement(_, l, b) => [One(l), One(Some(b))]
    case BreakStatement(_, l) => [One(l)]
    case ContinueStatement(_, l) => [One(l)]
    case WithStatement(_, o, b) => [One(Some(o)), One(Some(b))]
    case SwitchStatement(_, d, cs) => [One(Some(d)), Many(cs)]
    case SwitchCase(_, t, c) => [One(t), Many(c)]
    case ReturnStatement(_, a) => [One(a)]
    case ThrowStatement(_, a) => [One(Some(a))]
    case TryStatement(_, b, h, f) => [One(Some(b)), Many(h), One(f)]
    case CatchClause(_, p, b) => [One(Some(p)), One(Some(b))]
    case WhileStatement(_, t, b) => [One(t), One(Some(b))]
    case DoWhileStatement(_, b, t) => [One(Some(b)), One(t)]
    case ForStatement(_, i, t, u, b) => [One(i), One(t), One(u), One(Some(b))]
    case ForInStatement(_, l, r, b) => [One(Some(l)), One(Some(r)), One(Some(b))]
    case ForOfStatement(_, l, r, b) => [One(Some(l)), One(Some(r)), One(Some(b))]
    case FunctionDeclaration(_, i, p, b) => [One(i), Many(p), One(Some(b))]
    case FunctionExpression(_, i, p, b) => [One(i), Many(p), One(Some(b))]
    case ArrowFunctionExpression(_, p, b) => [Many(p), One(Some(b))]
    case VariableDeclaration(_, ds, _) => [Many(ds)]
    case VariableDeclarator(_, i, e) => [One(i), One(e)]
    case ThisExpression(_) => []
    case ArrayExpression(_, es) => [Sparse(es)]
    case ObjectExpression(_, ps) => [Many(ps)]
    case Property(_, k, v, _, _, _) => [One(Some(k)), One(Some(v))]
    case MethodDefinition(_, k, v, _) => [One(Some(k)), One(Some(v))]
    case UnaryExpression(_, a) => [One(Some(a))]
    case UpdateExpression(_, a) => [One(Some(a))]
    case BinaryExpression(_, l, r) => [One(Some(l)), One(Some(r))]
    case LogicalExpression(_, l, r) => [One(Some(l)), One(Some(r))]
    case AssignmentExpression(_, _, l, r) => [One(Some(l)), One(Some(r))]
    case ConditionalExpression(_, t, c, a) => [One(t), One(Some(c)), One(a)]
    case CallExpression(_, c, a) => [One(Some(c)), Many(a)]
    case NewExpression(_, c, a) => [One(Some(c)), Many(a)]
    case MemberExpression(_, o, p, _) => [One(Some(o)), One(Some(p))]
    case SequenceExpression(_, es) => [Many(es)]
    case SpreadElement(_, a) => [One(Some(a))]
    case ArrayPattern(_, es) => [Sparse(es)]
    case ObjectPattern(_, ps) => [Many(ps)]
    case AssignmentPattern(_, l, r) => [One(Some(l)), One(Some(r))]
    case ClassDeclaration(_, i, s, b) => [One(i), One(s), One(Some(b))]
    case ClassExpression(_, i, s, b) => [One(i), One(s), One(Some(b))]
    case ClassBody(_, ms) => [Many(ms)]
    case ImportDeclaration(_, ss, s) => [Many(ss), One(s)]
    case ImportSpecifier(_, i, a) => [One(i), One(a)]
    case ImportDefaultSpecifier(_, i) => [One(i)]
    case ImportNamespaceSpecifier(_, i) => [One(i)]
    case ExportDeclaration(_, d, ss, s) => [One(d), Many(ss), One(s)]
    case ExportSpecifier(_, i, a) => [One(i), One(a)]
  }

  /** The nodes held by a field, nulls dropped. */
  function FieldNodes(f: Field): seq<Node>
  {
    match f
    case One(o) => Opt(o)
    case Many(xs) => xs
    case Sparse(xs) => Present(xs)
  }

  function Flatten(fs: seq<Field>): (r: seq<Node>)
    ensures forall c :: c in r ==> exists f :: f in fs && c in FieldNodes(f)
  {
    if fs == [] then [] else FieldNodes(fs[0]) + Flatten(fs[1..])
  }

  ghost predicate FieldBelow(f: Field, n: Node)
  {
    forall c :: c in FieldNodes(f) ==> c < n
  }

  // The rank facts are proved a few constructors at a time, which keeps each proof small.
  lemma {:induction false} FieldsBelow0(n: Node)
    requires n.Program? || n.Identifier? || n.Literal? || n.DirectiveStatement? || n.ExpressionStatement? || n.BlockStatement? || n.EmptyStatement? || n.DebuggerStatement?
    ensures forall f :: f in Fields(n) ==> FieldBelow(f, n)
  {
  }

  lemma {:induction false} FieldsBelow1(n: Node)
    requires n.IfStatement? || n.LabeledStatement? || n.BreakStatement? || n.ContinueStatement?
    ensures forall f :: f in Fields(n) ==> FieldBelow(f, n)
  {
  }

  lemma {:induction false} FieldsBelow2(n: Node)
    requires n.WithStatement? || n.SwitchStatement? || n.SwitchCase? || n.ReturnStatement? || n.ThrowStatement?
    ensures forall f :: f in Fields(n) ==> FieldBelow(f, n)
  {
  }

  lemma {:induction false} FieldsBelow3(n: Node)
    requires n.TryStatement? || n.CatchClause? || n.WhileStatement? || n.DoWhileStatement?
    ensures forall f :: f in Fields(n) ==> FieldBelow(f, n)
  {
  }

  lemma {:induction false} FieldsBelow4(n: Node)
    requires n.ForStatement? || n.ForInStatement? || n.ForOfStatement?
    ensures forall f :: f in Fields(n) ==> FieldBelow(f, n)
  {
  }

  lemma {:induction false} FieldsBelow5(n: Node)
    requires n.FunctionDeclaration? || n.FunctionExpression? || n.ArrowFunctionExpression?
    ensures forall f :: f in Fields(n) ==> FieldBelow(f, n)
  {
  }

  lemma {:induction false} FieldsBelow6(n: Node)
    requires n.VariableDeclaration? || n.VariableDeclarator? || n.ThisExpression? || n.ArrayExpression? || n.ObjectExpression?
    ensures forall f :: f in Fields(n) ==> FieldBelow(f, n)
  {
  }

  lemma {:induction false} FieldsBelow7(n: Node)
    requires n.Property? || n.MethodDefinition? || n.UnaryExpression? || n.UpdateExpression?
    ensures forall f :: f in Fields(n) ==> FieldBelow(f, n)
  {
  }

  lemma {:induction false} FieldsBelow8(n: Node)
    requires n.BinaryExpression? || n.LogicalExpression? || n.AssignmentExpression?
    ensures forall f :: f in Fields(n) ==> FieldBelow(f, n)
  {
  }

  lemma {:induction false} FieldsBelow9(n: Node)
    requires n.ConditionalExpression? || n.CallExpression? || n.NewExpression?
    ensures forall f :: f in Fields(n) ==> FieldBelow(f, n)
  {
  }

  lemma {:induction false} FieldsBelow10(n: Node)
    requires n.MemberExpression? || n.SequenceExpression? || n.SpreadElement?
    ensures forall f :: f in Fields(n) ==> FieldBelow(f, n)
  {
  }

  lemma {:induction false} FieldsBelow11(n: Node)
    requires n.ArrayPattern? || n.ObjectPattern? || n.AssignmentPattern?
    ensures forall f :: f in Fields(n) ==> FieldBelow(f, n)
  {
  }

  lemma {:induction false} FieldsBelow12(n: Node)
    requires n.ClassDeclaration? || n.ClassExpression?
    ensures forall f :: f in Fields(n) ==> FieldBelow(f, n)
  {
  }

  lemma {:induction false} FieldsBelow13(n: Node)
    requires n.ClassBody? || n.ImportDeclaration? || n.ImportSpecifier?
    ensures forall f :: f in Fields(n) ==> FieldBelow(f, n)
  {
  }

  lemma {:induction false} FieldsBelow14(n: Node)
    requires n.ImportDefaultSpecifier? || n.ImportNamespaceSpecifier?
    ensures forall f :: f in Fields(n) ==> FieldBelow(f, n)
  {
  }

  lemma {:induction false} FieldsBelow15(n: Node)
    requires n.ExportDeclaration? || n.ExportSpecifier?
    ensures forall f :: f in Fields(n) ==> FieldBelow(f, n)
  {
  }

  lemma {:induction false} FieldsBelow(n: Node)
    ensures forall f :: f in Fields(n) ==> FieldBelow(f, n)
  {
    if n.Program? || n.Identifier? || n.Literal? || n.DirectiveStatement? || n.ExpressionStatement? || n.BlockStatement? || n.EmptyStatement? || n.DebuggerStatement? { FieldsBelow0(n); }
    else if n.IfStatement? || n.LabeledStatement? || n.BreakStatement? || n.ContinueStatement? { FieldsBelow1(n); }
    else if n.WithStatement? || n.SwitchStatement? || n.SwitchCase? || n.ReturnStatement? || n.ThrowStatement? { FieldsBelow2(n); }
    else if n.TryStatement? || n.CatchClause? || n.WhileStatement? || n.DoWhileStatement? { FieldsBelow3(n); }
    else if n.ForStatement? || n.ForInStatement? || n.ForOfStatement? { FieldsBelow4(n); }
    else if n.FunctionDeclaration? || n.FunctionExpression? || n.ArrowFunctionExpression? { FieldsBelow5(n); }
    else if n.VariableDeclaration? || n.VariableDeclarator? || n.ThisExpression? || n.ArrayExpression? || n.ObjectExpression? { FieldsBelow6(n); }
    else if n.Property? || n.MethodDefinition? || n.UnaryExpression? || n.UpdateExpression? { FieldsBelow7(n); }
    else if n.BinaryExpression? || n.LogicalExpression? || n.AssignmentExpression? { FieldsBelow8(n); }
    else if n.ConditionalExpression? || n.CallExpression? || n.NewExpression? { FieldsBelow9(n); }
    else if n.MemberExpression? || n.SequenceExpression? || n.SpreadElement? { FieldsBelow10(n); }
    else if n.ArrayPattern? || n.ObjectPattern? || n.AssignmentPattern? { FieldsBelow11(n); }
    else if n.ClassDeclaration? || n.ClassExpression? { FieldsBelow12(n); }
    else if n.ClassBody? || n.ImportDeclaration? || n.ImportSpecifier? { FieldsBelow13(n); }
    else if n.ImportDefaultSpecifier? || n.ImportNamespaceSpecifier? { FieldsBelow14(n); }
    else { FieldsBelow15(n); }
  }

  /** The non-null children of a node, in visitor-key order, array elements left to right. */
  function Children(n: Node): (r: seq<Node>)
    ensures forall c :: c in r ==> c < n
  {
    FieldsBelow(n);
    Flatten(Fields(n))
  }

  /** The ids of every node in the subtree rooted at `n`. */
  ghost function Ids(n: Node): set<NodeId>
    decreases n
  {
    {n.nid} + (set c, x | c in Children(n) && x in Ids(c) :: x)
  }

  /**
   * The node ids describe a tree: no node's id occurs again below it.  This is
   * what JavaScript object identity guarantees for a parsed program.
   */
  ghost predicate Tree(n: Node)
    decreases n
  {
    forall c :: c in Children(n) ==> n.nid !in Ids(c) && Tree(c)
  }

  lemma ChildIds(n: Node, c: Node)
    requires c in Children(n)
    ensures Ids(c) <= Ids(n)
  {
  }

  /** `isPattern` (lib/referencer.js): the node types that `visitPattern` walks. */
  predicate IsPattern(n: Node)
  {
    n.Identifier? || n.ObjectPattern? || n.ArrayPattern? || n.SpreadElement?
  }
}
