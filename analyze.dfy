/**
 * The legacy `analyze(tree)` (escope.js): one `traverse` whose `enter`
 * opens the scopes `Scope.isRequired` names and records definitions and
 * references per node type, and whose `leave` closes every current scope
 * opened on the node being left; then the `ScopeManager` queries and the
 * query methods of Scope and Reference.
 */
module LegacyAnalysis {
  import opened Base
  import opened Ast
  import Scopes
  import opened Legacy
  import opened Traversal

  // ---------------------------------------------------------------------
  // Calls on the current scope

  /** The references one node type records, one per Identifier, in order, from scope `s`. */
  function Made(xs: seq<Option<Node>>, s: ScopeId): seq<Ref>
  {
    if xs == [] then []
    else (if IsIdent(HandleOpt(xs[0])) then [NewRef(HandleOpt(xs[0]).value, s)] else []) + Made(xs[1..], s)
  }

  /** `scope.__referencing(x)` for each `x` in turn, on scope `s`. */
  function RefEach(st: State, s: ScopeId, xs: seq<Option<Node>>): (r: Result<State, Fault>)
    requires Valid(st) && s < |st.scopes|
    ensures r.Success? ==> Valid(r.value) && Kept(st, r.value) && r.value.vars == st.vars && r.value.current == st.current
    ensures r.Success? ==> r.value.refs == st.refs + Made(xs, s)
    ensures st.scopes[s].left.Some? ==> r.Success?
    decreases |xs|
  {
    if xs == [] then Success(st)
    else
      var st1 :- Referencing(st, s, HandleOpt(xs[0]));
      assert st1.scopes[s].left.Some? <== st.scopes[s].left.Some?;
      var r := RefEach(st1, s, xs[1..]);
      if r.Success? then
        KeptTrans(st, st1, r.value);
        assert st.refs + Made(xs, s) == st1.refs + Made(xs[1..], s);
        r
      else r
  }

  /**
   * `scope.__referencing(x)` for each `x` on the current scope.  With a null
   * current scope the first call raises; with no call to make nothing does.
   */
  function RefAll(st: State, xs: seq<Option<Node>>): (r: Result<State, Fault>)
    requires Valid(st)
    ensures r.Success? ==> Valid(r.value) && Kept(st, r.value) && r.value.vars == st.vars && r.value.current == st.current
    ensures r.Success? && xs != [] ==> st.current.Some? && r.value.refs == st.refs + Made(xs, st.current.value)
    ensures xs == [] ==> r == Success(st)
    ensures xs != [] && st.current.None? ==> r == Failure(NoScope)
  {
    if xs == [] then Success(st)
    else if st.current.None? then Failure(NoScope)
    else RefEach(st, st.current.value, xs)
  }

  /** `scope.__define(x)` for each `x` in turn, on scope `s`. */
  function DefineEach(st: State, s: ScopeId, xs: seq<Option<Node>>): (r: State)
    requires Valid(st) && s < |st.scopes|
    ensures Valid(r) && Kept(st, r) && r.refs == st.refs && r.current == st.current
    ensures forall i :: 0 <= i < |xs| && xs[i].Some? && xs[i].value.Identifier? ==> xs[i].value.name in r.scopes[s].names
    decreases |xs|
  {
    if xs == [] then st
    else
      var st1 := Define(st, s, HandleOpt(xs[0]));
      var r := DefineEach(st1, s, xs[1..]);
      KeptTrans(st, st1, r);
      assert forall i :: 1 <= i < |xs| ==> xs[i] == xs[1..][i - 1];
      r
  }

  /** `scope.__define(x)` for each `x` on the current scope. */
  function DefineAll(st: State, xs: seq<Option<Node>>): (r: Result<State, Fault>)
    requires Valid(st)
    ensures r.Success? ==> Valid(r.value) && Kept(st, r.value) && r.value.refs == st.refs && r.value.current == st.current
    ensures xs != [] && st.current.None? ==> r == Failure(NoScope)
    ensures st.current.Some? ==> r == Success(DefineEach(st, st.current.value, xs))
  {
    if xs == [] then Success(st)
    else if st.current.None? then Failure(NoScope)
    else Success(DefineEach(st, st.current.value, xs))
  }

  function Somes(xs: seq<Node>): (r: seq<Option<Node>>)
    ensures |r| == |xs| && forall i :: 0 <= i < |xs| ==> r[i] == Some(xs[i])
  {
    seq(|xs|, i requires 0 <= i < |xs| => Some(xs[i]))
  }

  // ---------------------------------------------------------------------
  // enter

  /** The call `scope.variableScope.__detectEval()` of a direct call to `eval`. */
  predicate IsDirectEval(callee: Node)
  {
    callee.Identifier? && callee.name == "eval"
  }

  /** The variable scope of the current scope; reading it from a null scope raises. */
  function CurrentVariableScope(st: State): (r: Result<ScopeId, Fault>)
    requires Valid(st)
    ensures r.Success? <==> st.current.Some?
    ensures r.Success? ==> r.value < |st.scopes| && r.value == st.scopes[st.current.value].variableScope
  {
    if st.current.None? then Failure(NoScope)
    else
      assert ScopeOk(st.scopes[st.current.value], st.current.value, |st.vars|, |st.refs|);
      Success(st.scopes[st.current.value].variableScope)
  }

  /** The switch of `enter` for the calls and definitions (the other node types do nothing). */
  function Rule(st: State, node: Node): (r: Result<State, Fault>)
    requires Valid(st)
    ensures r.Success? ==> Valid(r.value) && Kept(st, r.value) && r.value.current == st.current
  {
    match node
    case AssignmentExpression(_, _, left, right) => RefAll(st, [Some(left), Some(right)])
    case ArrayExpression(_, elements) => RefAll(st, elements)
    case BinaryExpression(_, left, right) => RefAll(st, [Some(left), Some(right)])
    case CallExpression(_, callee, args) => CallRule(st, callee, args)
    case CatchClause(_, param, _) => DefineAll(st, [Some(param)])
    case ConditionalExpression(_, test, consequent, alternate) => RefAll(st, [test, Some(consequent), alternate])
    case DoWhileStatement(_, _, test) => RefAll(st, [test])
    case ExpressionStatement(_, expression) => RefAll(st, [Some(expression)])
    case ForStatement(_, init, test, update, _) => RefAll(st, [init, test, update])
    case ForInStatement(_, left, right, _) => RefAll(st, [Some(left), Some(right)])
    case FunctionDeclaration(_, id, params, _) => FunctionDeclarationRule(st, id, params)
    case FunctionExpression(_, _, params, _) => DefineAll(st, Somes(params))
    case _ => Rule2(st, node)
  }

  function Rule2(st: State, node: Node): (r: Result<State, Fault>)
    requires Valid(st)
    ensures r.Success? ==> Valid(r.value) && Kept(st, r.value) && r.value.current == st.current
  {
    match node
    case IfStatement(_, test, _, _) => RefAll(st, [test])
    case LogicalExpression(_, left, right) => RefAll(st, [Some(left), Some(right)])
    case MemberExpression(_, obj, property, computed) =>
      RefAll(st, [Some(obj)] + (if computed then [Some(property)] else []))
    case NewExpression(_, callee, args) => RefAll(st, [Some(callee)] + Somes(args))
    case Property(_, _, value, _, _, _) => RefAll(st, [Some(value)])
    case ReturnStatement(_, argument) => RefAll(st, [argument])
    case SequenceExpression(_, expressions) => RefAll(st, Somes(expressions))
    case SwitchStatement(_, discriminant, _) => RefAll(st, [Some(discriminant)])
    case SwitchCase(_, test, _) => RefAll(st, [test])
    case ThrowStatement(_, argument) => RefAll(st, [Some(argument)])
    case UnaryExpression(_, argument) => RefAll(st, [Some(argument)])
    case UpdateExpression(_, argument) => RefAll(st, [Some(argument)])
    case VariableDeclarator(_, id, init) => VariableDeclaratorRule(st, id, init)
    case WhileStatement(_, test, _) => RefAll(st, [test])
    case WithStatement(_, obj, _) => RefAll(st, [Some(obj)])
    case _ => Success(st)
  }

  /** CallExpression: the callee and the arguments are referenced; `eval(...)` makes the variable scope dynamic. */
  function CallRule(st: State, callee: Node, args: seq<Node>): (r: Result<State, Fault>)
    requires Valid(st)
    ensures r.Success? ==> Valid(r.value) && Kept(st, r.value) && r.value.current == st.current
    ensures st.current.None? ==> r == Failure(NoScope)
    ensures st.current.Some? && st.scopes[st.current.value].left.Some? ==> r.Success?
    ensures r.Success? ==>
      && st.current.Some? && r.value.vars == st.vars
      && r.value.refs == st.refs + Made([Some(callee)] + Somes(args), st.current.value)
  {
    var st1 :- RefAll(st, [Some(callee)] + Somes(args));
    if IsDirectEval(callee) then
      // the references just made leave a current scope
      var vs := CurrentVariableScope(st1).value;
      var r := DetectEval(st1, vs);
      KeptTrans(st, st1, r);
      Success(r)
    else Success(st1)
  }

  /** FunctionDeclaration: the name is defined in the upper scope, the parameters in the function's scope. */
  function FunctionDeclarationRule(st: State, id: Option<Node>, params: seq<Node>): (r: Result<State, Fault>)
    requires Valid(st)
    ensures r.Success? ==> Valid(r.value) && Kept(st, r.value) && r.value.current == st.current
  {
    if st.current.None? then Failure(NoScope)
    else
      var c := st.current.value;
      assert ScopeOk(st.scopes[c], c, |st.vars|, |st.refs|);
      if st.scopes[c].upper.None? then Failure(NoScope)
      else
        var st1 := Define(st, st.scopes[c].upper.value, HandleOpt(id));
        var r := DefineEach(st1, c, Somes(params));
        KeptTrans(st, st1, r);
        Success(r)
  }

  /** VariableDeclarator: the name is defined in the variable scope, the initialiser referenced. */
  function VariableDeclaratorRule(st: State, id: Option<Node>, init: Option<Node>): (r: Result<State, Fault>)
    requires Valid(st)
    ensures r.Success? ==> Valid(r.value) && Kept(st, r.value) && r.value.current == st.current
  {
    var vs :- CurrentVariableScope(st);
    var st1 := Define(st, vs, HandleOpt(id));
    var r :- RefAll(st1, [init]);
    KeptTrans(st, st1, r);
    Success(r)
  }

  /**
   * `enter(node)`: a scope for the node types that need one, then the node
   * type's rule.  A node that needs a scope leaves its own scope current.
   */
  function Enter(st: State, node: Node): (r: Result<State, Fault>)
    requires Valid(st)
    ensures r.Success? ==> Valid(r.value)
    ensures r.Success? && !IsRequired(node) ==> Kept(st, r.value) && r.value.current == st.current
    ensures r.Success? && IsRequired(node) ==>
      r.value.current.Some? && r.value.scopes[r.value.current.value].block == Scopes.HandleOf(node)
  {
    var st1 :- if IsRequired(node) then NewScope(st, node) else Success(st);
    Rule(st1, node)
  }

  // ---------------------------------------------------------------------
  // leave

  /**
   * `leave(node)`: `while (scope && node === scope.block) scope.__close()`.
   * Afterwards the current scope, if any, belongs to another node.
   */
  function Leave(st: State, node: Node): (r: Result<State, Fault>)
    requires Valid(st)
    ensures r.Success? ==> Valid(r.value) && Kept(st, r.value)
    ensures r.Success? ==> r.value.current.None? || r.value.scopes[r.value.current.value].block.nid != node.nid
    ensures st.current.None? || st.scopes[st.current.value].block.nid != node.nid ==> r == Success(st)
    decreases if st.current.Some? then st.current.value + 1 else 0
  {
    if st.current.Some? && st.scopes[st.current.value].block.nid == node.nid then
      var c := st.current.value;
      assert ScopeOk(st.scopes[c], c, |st.vars|, |st.refs|);
      var st1 :- Close(st, c);
      var r := Leave(st1, node);
      if r.Success? then KeptTrans(st, st1, r.value); r else r
    else Success(st)
  }

  // ---------------------------------------------------------------------
  // analyze

  /** The value the callbacks thread: a state satisfying the invariant, or the fault that was raised. */
  type Analysis = a: Result<State, Fault> | a.Success? ==> Valid(a.value) witness Failure(NoScope)

  /** A raised fault leaves `traverse` at once, as Break does. */
  function EnterNode(a: Analysis, node: Node): (Analysis, Control)
  {
    if a.Failure? then (a, Break)
    else var r := Enter(a.value, node); (r, if r.Failure? then Break else Continue)
  }

  function LeaveNode(a: Analysis, node: Node): (Analysis, Control)
  {
    if a.Failure? then (a, Break)
    else var r := Leave(a.value, node); (r, if r.Failure? then Break else Continue)
  }

  /** The visitor `analyze` passes to `traverse`; neither callback looks at the parent. */
  function Analyzer(): Visitor<Analysis>
  {
    Visitor((a: Analysis, n: Node, p: Option<Node>) => EnterNode(a, n),
            (a: Analysis, n: Node, p: Option<Node>) => LeaveNode(a, n))
  }

  /** What `analyze` makes of the end of the walk: a crash, a raised fault, or `assert(scope === null)`. */
  function Conclude(w: (Analysis, Halt)): (r: Result<State, Fault>)
    ensures r.Success? ==> Valid(r.value) && r.value.current.None?
  {
    if w.1 == Crashed then Failure(NoKeys)
    else if w.0.Failure? then w.0
    else if w.0.value.current.Some? then Failure(LeftOpen)
    else w.0
  }

  /** The analysis of `tree` from no scopes and a null current scope. */
  function AnalysisOf(tree: Node): Result<State, Fault>
  {
    Conclude(WalkNode(Analyzer(), Success(Empty()), tree, None))
  }

  /** `analyze(tree)`: the walk with the analysis visitor, then the scope manager over the scopes it made. */
  method Analyze(tree: Node) returns (r: Result<ScopeManager, Fault>)
    ensures r.Success? <==> AnalysisOf(tree).Success?
    ensures r.Success? ==> r.value.state == AnalysisOf(tree).value
  {
    var a, halt := Traverse<Analysis>(tree, Analyzer(), Success(Empty()));
    var outcome := Conclude((a, halt));
    if outcome.Failure? {
      return Failure(outcome.error);
    }
    var manager := new ScopeManager(outcome.value);
    return Success(manager);
  }

  /** A successful analysis leaves every scope's chain finite, which `release` relies on. */
  lemma AnalysisOrdered(tree: Node)
    requires AnalysisOf(tree).Success?
    ensures Ordered(AnalysisOf(tree).value.scopes) && AnalysisOf(tree).value.current.None?
  {
    ValidOrdered(AnalysisOf(tree).value);
  }

  // ---------------------------------------------------------------------
  // ScopeManager

  /** `__get`'s test on one scope: not a name scope, and opened on the node. */
  predicate Owns(sc: Scope, node: Node)
  {
    !sc.functionExpressionScope && sc.block.nid == node.nid
  }

  /** The first scope from `i` on that owns the node. */
  function FirstOwner(scopes: seq<Scope>, node: Node, i: nat): (r: Option<ScopeId>)
    requires i <= |scopes|
    ensures r.Some? ==> i <= r.value < |scopes| && Owns(scopes[r.value], node) &&
                        forall j :: i <= j < r.value ==> !Owns(scopes[j], node)
    ensures r.None? ==> forall j :: i <= j < |scopes| ==> !Owns(scopes[j], node)
    decreases |scopes| - i
  {
    if i == |scopes| then None
    else if Owns(scopes[i], node) then Some(i)
    else FirstOwner(scopes, node, i + 1)
  }

  /** The scope `__get(node)` finds when the manager is not attached. */
  function Lookup(scopes: seq<Scope>, node: Node): (r: Option<ScopeId>)
    ensures r.Some? ==> IsRequired(node) && r.value < |scopes| && Owns(scopes[r.value], node) &&
                        forall j :: 0 <= j < r.value ==> !Owns(scopes[j], node)
    ensures r.None? ==> !IsRequired(node) || forall j :: 0 <= j < |scopes| ==> !Owns(scopes[j], node)
  {
    if IsRequired(node) then FirstOwner(scopes, node, 0) else None
  }

  /** The nearest scope from `c` up the chain that is not a name scope. */
  function Unnamed(scopes: seq<Scope>, c: Option<ScopeId>): (r: Option<ScopeId>)
    requires Ordered(scopes) && (c.Some? ==> c.value < |scopes|)
    ensures r.Some? ==> c.Some? && r.value < |scopes| && OnChain(scopes, c.value, r.value) &&
                        !scopes[r.value].functionExpressionScope
    ensures r.Some? ==> forall i: nat :: r.value < i <= c.value && OnChain(scopes, c.value, i) ==> scopes[i].functionExpressionScope
    ensures r.None? && c.Some? ==> forall i: nat :: i <= c.value && OnChain(scopes, c.value, i) ==> scopes[i].functionExpressionScope
    decreases if c.Some? then c.value + 1 else 0
  {
    if c.None? then None
    else if !scopes[c.value].functionExpressionScope then
      ChainBelow(scopes, c.value);
      c
    else if scopes[c.value].upper.None? then None
    else
      ChainBelow(scopes, scopes[c.value].upper.value);
      Unnamed(scopes, scopes[c.value].upper)
  }

  /**
   * The ScopeManager over the `scopes` list of an analysis (held with the
   * records its scopes reach).  `attach`/`detach` are not part of this
   * model, so the manager is never attached.
   */
  class ScopeManager {
    const state: State

    constructor(state: State)
      ensures this.state == state
    {
      this.state := state;
    }

    /** `__get(node)`: `Scope.isRequired(node)`, then the first scope in order that owns the node. */
    method Get(node: Node) returns (r: Option<ScopeId>)
      ensures r == Lookup(state.scopes, node)
    {
      if IsRequired(node) {
        var scopes := state.scopes;
        var i := 0;
        while i < |scopes|
          invariant 0 <= i <= |scopes|
          invariant FirstOwner(scopes, node, 0) == FirstOwner(scopes, node, i)
        {
          var scope := scopes[i];
          if !scope.functionExpressionScope {
            if scope.block.nid == node.nid {
              return Some(i);
            }
          }
          i := i + 1;
        }
      }
      return None;
    }

    /** `acquire(node)`: the scope opened on the node, never a name scope. */
    method Acquire(node: Node) returns (r: Option<ScopeId>)
      ensures r == Lookup(state.scopes, node)
      ensures r.Some? ==> !state.scopes[r.value].functionExpressionScope
    {
      r := Get(node);
    }

    /** `release(node)`: the nearest scope above the node's own scope that is not a name scope. */
    method Release(node: Node) returns (r: Option<ScopeId>)
      requires Ordered(state.scopes)
      ensures var s := Lookup(state.scopes, node);
              r == if s.Some? then Unnamed(state.scopes, state.scopes[s.value].upper) else None
    {
      var s := Get(node);
      if s.None? {
        return None;
      }
      var scope := state.scopes[s.value].upper;
      while scope.Some?
        invariant scope.Some? ==> scope.value < |state.scopes|
        invariant Unnamed(state.scopes, scope) == Unnamed(state.scopes, state.scopes[s.value].upper)
        decreases if scope.Some? then scope.value + 1 else 0
      {
        if !state.scopes[scope.value].functionExpressionScope {
          return scope;
        }
        scope := state.scopes[scope.value].upper;
      }
      return None;
    }
  }

  // ---------------------------------------------------------------------
  // The query methods of Scope and Reference

  /** `ref.identifier === ident`: the reference is the one made for that node. */
  predicate Hits(st: State, x: RefId, ident: Node)
  {
    x < |st.refs| && st.refs[x].identifier.nid == ident.nid
  }

  /**
   * Scope#resolve(ident): on a closed scope and an Identifier, the first of
   * the scope's references made for that node; none raises.
   */
  method ResolveIdent(st: State, s: ScopeId, ident: Node) returns (r: Result<RefId, Fault>)
    requires Valid(st) && s < |st.scopes|
    ensures st.scopes[s].left.Some? ==> r == Failure(NotClosed)
    ensures st.scopes[s].left.None? && !ident.Identifier? ==> r == Failure(NotIdentifier)
    ensures r.Success? ==> Hits(st, r.value, ident)
    ensures r.Success? ==> (exists k :: 0 <= k < |st.scopes[s].references| && st.scopes[s].references[k] == r.value &&
                              forall j :: 0 <= j < k ==> !Hits(st, st.scopes[s].references[j], ident))
    ensures st.scopes[s].left.None? && ident.Identifier? ==>
      (r == Failure(Unreachable) <==> forall k :: 0 <= k < |st.scopes[s].references| ==> !Hits(st, st.scopes[s].references[k], ident))
  {
    var scope := st.scopes[s];
    if scope.left.Some? {
      return Failure(NotClosed);
    }
    if !ident.Identifier? {
      return Failure(NotIdentifier);
    }
    assert ScopeOk(scope, s, |st.vars|, |st.refs|);
    var i := 0;
    while i < |scope.references|
      invariant 0 <= i <= |scope.references|
      invariant forall j :: 0 <= j < i ==> !Hits(st, scope.references[j], ident)
    {
      var ref := st.refs[scope.references[i]];
      if ref.identifier.nid == ident.nid {
        return Success(scope.references[i]);
      }
      i := i + 1;
    }
    return Failure(Unreachable);
  }

  /** Scope#isStatic. */
  predicate IsStatic(sc: Scope)
  {
    !sc.dynamic
  }

  /**
   * Scope#isArgumentsMaterialized: true outside static function scopes;
   * otherwise whether `arguments` is tainted or referenced.  A scope of
   * type 'function' without an `arguments` variable fails the assertion.
   */
  function ArgumentsMaterialized(st: State, s: ScopeId): (r: Result<bool, Fault>)
    requires Valid(st) && s < |st.scopes|
    ensures st.scopes[s].kind != FunctionKind || !IsStatic(st.scopes[s]) ==> r == Success(true)
    ensures r.Failure? <==> st.scopes[s].kind == FunctionKind && IsStatic(st.scopes[s]) && "arguments" !in st.scopes[s].names
  {
    var sc := st.scopes[s];
    if sc.kind != FunctionKind then Success(true)
    else if !IsStatic(sc) then Success(true)
    else if "arguments" !in sc.names then Failure(NoArguments)
    else
      assert ScopeOk(sc, s, |st.vars|, |st.refs|);
      var v := st.vars[sc.names["arguments"]];
      Success(v.tainted || |v.references| != 0)
  }

  /**
   * Scope#isArgumentsMaterialized as evidently intended: wherever the source
   * answers, the same answer.  Where its assertion fails, a name scope holds
   * only the function's name, is no function body, and answers true as the
   * other non-function scopes do; any other function scope without
   * `arguments` has no `arguments` object, and answers false.  It never fails.
   */
  function ArgumentsMaterializedIntended(st: State, s: ScopeId): (r: bool)
    requires Valid(st) && s < |st.scopes|
    ensures ArgumentsMaterialized(st, s).Success? ==> r == ArgumentsMaterialized(st, s).value
    ensures ArgumentsMaterialized(st, s).Failure? ==> (r <==> st.scopes[s].functionExpressionScope)
  {
    var sc := st.scopes[s];
    if sc.kind != FunctionKind || !IsStatic(sc) then true
    else if "arguments" !in sc.names then sc.functionExpressionScope
    else
      assert ScopeOk(sc, s, |st.vars|, |st.refs|);
      var v := st.vars[sc.names["arguments"]];
      v.tainted || |v.references| != 0
  }

  /** Reference#isStatic: untainted, resolved, and to a variable of a static scope. */
  function RefIsStatic(st: State, x: RefId): (r: bool)
    requires Valid(st) && x < |st.refs|
    ensures r ==> !st.refs[x].tainted && st.refs[x].resolved.Some?
  {
    var ref := st.refs[x];
    !ref.tainted && ref.resolved.Some? &&
    IsStatic(st.scopes[st.vars[ref.resolved.value].scope])
  }

  // ---------------------------------------------------------------------
  // Properties of the rules

  /**
   * A named function expression gets two scopes on its node: first the name
   * scope, below the current scope, binding only the name; then the
   * function's own scope below it, its own variable scope, with `arguments`.
   */
  lemma NamedFunctionScopes(st: State, block: Node)
    requires Valid(st) && Named(block) && block.id.value.Identifier?
    ensures NewScope(st, block).Success?
    ensures var r := NewScope(st, block).value; var k := |st.scopes|;
      r.scopes[k].functionExpressionScope && r.scopes[k].kind == FunctionKind &&
      r.scopes[k].upper == st.current && r.scopes[k].names.Keys == {block.id.value.name} &&
      !r.scopes[k + 1].functionExpressionScope && r.scopes[k + 1].upper == Some(k) &&
      r.scopes[k + 1].variableScope == k + 1 && "arguments" in r.scopes[k + 1].names &&
      r.scopes[k].block == r.scopes[k + 1].block == Scopes.HandleOf(block)
  {
    var k := |st.scopes|;
    var st1 := OpenName(st, Scopes.HandleOf(block), HandleOpt(block.id));
    var st0 := Push(st, Blank(FunctionKind, Scopes.HandleOf(block), k, true));
    PushValid(st, Blank(FunctionKind, Scopes.HandleOf(block), k, true));
    assert st0.scopes[k].names == map[];
    assert st1 == Define(st0, k, HandleOpt(block.id));
    assert st1.scopes[k].names.Keys == {block.id.value.name};
  }

  /**
   * The name scope has type 'function' and is static, but no `arguments`
   * variable (unless the function is itself called `arguments`):
   * `isArgumentsMaterialized` on it fails the source's assertion, where the
   * intended query answers true.
   */
  lemma NameScopeArguments(st: State, block: Node)
    requires Valid(st) && Named(block) && block.id.value.Identifier? && block.id.value.name != "arguments"
    ensures NewScope(st, block).Success?
    ensures ArgumentsMaterialized(NewScope(st, block).value, |st.scopes|) == Failure(NoArguments)
    ensures ArgumentsMaterializedIntended(NewScope(st, block).value, |st.scopes|)
  {
    NamedFunctionScopes(st, block);
    var k := |st.scopes|;
    var st0 := Push(st, Blank(FunctionKind, Scopes.HandleOf(block), k, true));
    PushValid(st, Blank(FunctionKind, Scopes.HandleOf(block), k, true));
    assert OpenName(st, Scopes.HandleOf(block), HandleOpt(block.id)) == Define(st0, k, HandleOpt(block.id));
    assert !NewScope(st, block).value.scopes[k].dynamic;
  }

  /** A function scope just opened has an `arguments` variable nobody has tainted or referenced yet. */
  lemma FreshFunctionArguments(st: State, block: Node)
    requires Valid(st) && KindOf(block) == FunctionKind
    ensures NewScope(st, block).Success?
    ensures var r := NewScope(st, block).value;
      ArgumentsMaterialized(r, |r.scopes| - 1) == Success(false)
  {
  }

  /** A FunctionDeclaration defines its name in the scope around the function, its parameters in the function's scope. */
  lemma FunctionDeclarationDefines(st: State, node: Node)
    requires Valid(st) && node.FunctionDeclaration? && Rule(st, node).Success?
    ensures st.current.Some? && st.current.value < |st.scopes| && st.scopes[st.current.value].upper.Some?
    ensures var c := st.current.value; var u := st.scopes[c].upper.value;
      u < |st.scopes| && Rule(st, node).value.scopes[u].names.Keys >= st.scopes[u].names.Keys &&
      (node.id.Some? && node.id.value.Identifier? ==> node.id.value.name in Rule(st, node).value.scopes[u].names) &&
      forall i :: 0 <= i < |node.params| && node.params[i].Identifier? ==>
        node.params[i].name in Rule(st, node).value.scopes[c].names
  {
    var c := st.current.value;
    assert ScopeOk(st.scopes[c], c, |st.vars|, |st.refs|);
    var u := st.scopes[c].upper.value;
    var st1 := Define(st, u, HandleOpt(node.id));
    var r := Rule(st, node).value;
    assert r == DefineEach(st1, c, Somes(node.params));
    assert Evolves(st1.scopes[u], r.scopes[u]);
    assert Evolves(st.scopes[u], st1.scopes[u]);
    forall i | 0 <= i < |node.params| && node.params[i].Identifier?
      ensures node.params[i].name in r.scopes[c].names
    {
      assert Somes(node.params)[i] == Some(node.params[i]);
    }
  }

  /** A VariableDeclarator defines its name in the variable scope and references its initialiser from the current scope. */
  lemma VariableDeclaratorDefines(st: State, node: Node)
    requires Valid(st) && node.VariableDeclarator? && Rule(st, node).Success?
    ensures st.current.Some? && st.current.value < |st.scopes|
    ensures var vs := st.scopes[st.current.value].variableScope; var r := Rule(st, node).value;
      vs < |st.scopes| &&
      (node.id.Some? && node.id.value.Identifier? ==> node.id.value.name in r.scopes[vs].names) &&
      r.refs == st.refs + Made([node.init], st.current.value)
  {
    var c := st.current.value;
    assert ScopeOk(st.scopes[c], c, |st.vars|, |st.refs|);
    var vs := st.scopes[c].variableScope;
    var st1 := Define(st, vs, HandleOpt(node.id));
    var r := Rule(st, node).value;
    assert RefAll(st1, [node.init]) == Success(r);
    assert Evolves(st1.scopes[vs], r.scopes[vs]);
  }

  /** A CatchClause defines its parameter in the catch scope. */
  lemma CatchClauseDefines(st: State, node: Node)
    requires Valid(st) && node.CatchClause? && node.param.Identifier? && Rule(st, node).Success?
    ensures st.current.Some? && st.current.value < |st.scopes|
    ensures node.param.name in Rule(st, node).value.scopes[st.current.value].names
  {
    assert Somes([node.param])[0] == Some(node.param);
  }

  /**
   * A direct call to `eval` marks the current variable scope as calling
   * eval, and it and every scope up its chain as dynamic.
   */
  lemma DirectEvalMarks(st: State, node: Node)
    requires Valid(st) && Ordered(st.scopes) && node.CallExpression? && IsDirectEval(node.callee)
    requires Rule(st, node).Success?
    ensures st.current.Some? && st.current.value < |st.scopes|
    ensures var vs := st.scopes[st.current.value].variableScope; var r := Rule(st, node).value;
      vs < |st.scopes| && r.scopes[vs].directCallToEvalScope &&
      forall i: nat :: i < |st.scopes| && OnChain(st.scopes, vs, i) ==> r.scopes[i].dynamic
  {
    var c := st.current.value;
    assert ScopeOk(st.scopes[c], c, |st.vars|, |st.refs|);
    var vs := st.scopes[c].variableScope;
    var st1 := RefAll(st, [Some(node.callee)] + Somes(node.arguments)).value;
    assert Rule(st, node) == Success(DetectEval(st1, vs));
    ValidOrdered(st1);
    assert forall i :: 0 <= i < |st.scopes| ==> st.scopes[i].upper == st1.scopes[i].upper by {
      assert forall i :: 0 <= i < |st.scopes| ==> Evolves(st.scopes[i], st1.scopes[i]);
    }
    ChainSame(st.scopes, st1.scopes, vs);
  }

  /** Leaving a node that owns no current scope changes nothing; leaving one that does closes the current scope. */
  lemma LeaveCloses(st: State, node: Node)
    requires Valid(st) && st.current.Some? && st.current.value < |st.scopes|
    requires st.scopes[st.current.value].block.nid == node.nid && Leave(st, node).Success?
    ensures Close(st, st.current.value).Success?
    ensures Leave(st, node) == Leave(Close(st, st.current.value).value, node)
  {
  }
}
