/**
 * Opening a scope (the Scope constructor of lib/scope.js with `registerScope`
 * and `isStrictScope`), the flags a visit sets on a scope (`__detectEval`,
 * `__detectThis`), and the query-only predicates `isStatic`,
 * `isArgumentsMaterialized` and `isThisMaterialized`.
 */
module Nesting {
  import opened Base
  import opened Ast
  import opened Scopes
  import opened Closing
  import opened Strictness

  // ---------------------------------------------------------------------
  // The Scope constructor and registerScope

  /** The `type` the constructor gives a scope of kind `special` opened on `block`. */
  function TypeOf(special: SpecialScope, block: Node): ScopeType
  {
    if special == TDZ then TDZScope
    else if special == Module then ModuleScope
    else if block.BlockStatement? then BlockScope
    else if block.SwitchStatement? then SwitchScope
    else if block.FunctionExpression? || block.FunctionDeclaration? || block.ArrowFunctionExpression? then FunctionScope
    else if block.CatchClause? then CatchScope
    else if block.ForInStatement? || block.ForOfStatement? || block.ForStatement? then ForScope
    else if block.WithStatement? then WithScope
    else if block.ClassExpression? || block.ClassDeclaration? then ClassScope
    else GlobalScope
  }

  /** `block.id`, for the node types that have one. */
  function IdOf(block: Node): Option<Node>
  {
    match block
    case FunctionDeclaration(_, id, _, _) => id
    case FunctionExpression(_, id, _, _) => id
    case ClassDeclaration(_, id, _, _) => id
    case ClassExpression(_, id, _, _) => id
    case _ => None
  }

  /** A named FunctionExpression: its scope is preceded by a scope for the name. */
  predicate NeedsNameScope(block: Node, special: SpecialScope)
  {
    special != FunctionExpressionName && block.FunctionExpression? && block.id.Some?
  }

  /** What the constructor makes of `block.id`. */
  function IdHandle(block: Node): (h: Option<Handle>)
    ensures IsIdent(h) <==> IdOf(block).Some? && IdOf(block).value.Identifier?
    ensures IsIdent(h) ==> h.value.name == IdOf(block).value.name
  {
    if IdOf(block).Some? then Some(HandleOf(IdOf(block).value)) else None
  }

  /** The definitions the constructor makes in a new scope. */
  datatype Binding =
    | BindsName(id: Option<Handle>)  // a name scope: the function expression's name
    | BindsArguments                 // a function scope other than an arrow function's
    | BindsNothing

  /**
   * All the constructor reads of its arguments for one scope: the scope's
   * type, its block, whether it is a name scope, what it binds, and what the
   * strictness rule says when `upper` is not strict.
   */
  datatype Opening = Opening(scopeType: ScopeType, block: Handle, functionExpressionScope: bool,
                             binds: Binding, ownStrict: Result<bool, Error>)

  /** The Opening of a scope of kind `special` on `block`. */
  function OpeningOf(block: Node, isMethodDefinition: bool, special: SpecialScope, useDirective: bool): (o: Opening)
    ensures o.scopeType == TypeOf(special, block) && o.block == HandleOf(block)
    ensures o.functionExpressionScope <==> special == FunctionExpressionName
    ensures o.binds.BindsName? <==> special == FunctionExpressionName
    ensures o.binds.BindsArguments? <==>
      special != FunctionExpressionName && TypeOf(special, block) == FunctionScope && !block.ArrowFunctionExpression?
    ensures o.binds.BindsName? ==> o.binds.id == IdHandle(block)
    ensures o.ownStrict == StrictRule(false, TypeOf(special, block), block, isMethodDefinition, useDirective)
  {
    var t := TypeOf(special, block);
    var binds := if special == FunctionExpressionName then BindsName(IdHandle(block))
                 else if t == FunctionScope && !block.ArrowFunctionExpression? then BindsArguments
                 else BindsNothing;
    Opening(t, HandleOf(block), special == FunctionExpressionName, binds,
            StrictRule(false, t, block, isMethodDefinition, useDirective))
  }

  /** A scope as the constructor creates it: empty tables and lists, `__left` empty, open. */
  function Fresh(t: ScopeType, block: Handle, upper: Option<ScopeId>, variableScope: ScopeId,
                 functionExpressionScope: bool, strict: bool): Scope
  {
    Scope(t, map[], {}, t == GlobalScope || t == WithScope, block, [], [], [], variableScope,
          functionExpressionScope, false, false, Some([]), upper, strict, [],
          if t == GlobalScope then Some(Implicit(map[], [], [])) else None)
  }

  /**
   * The constructor's bookkeeping for a new scope `sc`: it is pushed onto the
   * current scope's `childScopes`, becomes the current scope (and the global
   * scope when it is one), and `registerScope` appends it to `scopes` and to
   * the `__nodeToScope` list of its block.
   */
  function Attach(st: State, sc: Scope): State
    requires st.current.Some? ==> st.current.value < |st.scopes|
  {
    var n := |st.scopes|;
    var k := sc.block.nid;
    var scopes := if st.current.Some? then
                    var c := st.current.value;
                    st.scopes[c := st.scopes[c].(childScopes := st.scopes[c].childScopes + [n])]
                  else st.scopes;
    st.(scopes := scopes + [sc],
        nodeToScope := st.nodeToScope[k := (if k in st.nodeToScope then st.nodeToScope[k] else []) + [n]],
        current := Some(n),
        globalScope := if sc.scopeType == GlobalScope then Some(n) else st.globalScope)
  }

  /** The current scope of a valid state exists and satisfies the invariant. */
  lemma ValidCurrent(st: State)
    requires Valid(st)
    ensures st.current.Some? ==> st.current.value < |st.scopes| && ScopeOk(st.scopes, st.vars, |st.refs|, st.current.value)
    ensures st.current.Some? ==> st.scopes[st.current.value].left.Some?
  {
    if st.current.Some? {
      assert ChainOpen(st.scopes, st.current.value);
    }
  }

  /** What the new scope of `Attach` must satisfy for the invariant to survive. */
  ghost predicate Attachable(st: State, sc: Scope)
  {
    && sc.upper == st.current
    && sc.names == map[] && sc.variables == [] && sc.references == [] && sc.through == []
    && sc.childScopes == [] && sc.left == Some([])
    && (sc.implicit.Some? ==> sc.implicit.value == Implicit(map[], [], []))
    && (sc.scopeType == GlobalScope <==> sc.implicit.Some?)
    && sc.variableScope <= |st.scopes|
    && (sc.variableScope == |st.scopes| ==> OwnsVariables(sc.scopeType))
    && (sc.variableScope < |st.scopes| ==> OwnsVariables(st.scopes[sc.variableScope].scopeType))
  }

  lemma AttachValid(st: State, sc: Scope)
    requires Valid(st) && Attachable(st, sc)
    ensures st.current.Some? ==> st.current.value < |st.scopes|
    ensures Valid(Attach(st, sc))
  {
    var n := |st.scopes|;
    ValidCurrent(st);
    var r := Attach(st, sc);
    AttachScopesOk(st, sc);
    AttachOpen(st, sc);
    forall v | 0 <= v < |r.vars| ensures VarOk(|r.scopes|, |r.refs|, r.vars[v]) {
      assert VarOk(|st.scopes|, |st.refs|, st.vars[v]);
    }
    forall x | 0 <= x < |r.refs| ensures RefOk(|r.scopes|, |r.vars|, r.refs[x]) {
      assert RefOk(|st.scopes|, |st.vars|, st.refs[x]);
    }
    forall k | k in r.nodeToScope ensures Below(r.nodeToScope[k], |r.scopes|) {
      if k in st.nodeToScope {
        assert Below(st.nodeToScope[k], n);
      }
    }
  }

  lemma AttachScopesOk(st: State, sc: Scope)
    requires Valid(st) && Attachable(st, sc)
    requires st.current.Some? ==> st.current.value < |st.scopes|
    ensures var r := Attach(st, sc);
      forall i :: 0 <= i < |r.scopes| ==> ScopeOk(r.scopes, r.vars, |r.refs|, i)
  {
    var n, r := |st.scopes|, Attach(st, sc);
    AttachFrame(st, sc);
    AttachNewOk(st, sc);
    assert ScopesFrame(st.scopes, r.scopes) && VarsFrame(st.vars, r.vars);
    forall i | 0 <= i < |r.scopes| ensures ScopeOk(r.scopes, r.vars, |r.refs|, i) {
      if i < n {
        assert ScopeOk(st.scopes, st.vars, |st.refs|, i);
        ScopeOkFrame(st.scopes, st.vars, |st.refs|, r.scopes, r.vars, |r.refs|, i);
      }
    }
  }

  lemma AttachFrame(st: State, sc: Scope)
    requires Valid(st) && Attachable(st, sc)
    requires st.current.Some? ==> st.current.value < |st.scopes|
    ensures var n, r := |st.scopes|, Attach(st, sc);
      forall i :: 0 <= i < n ==>
        SameTables(st.scopes[i], r.scopes[i])
        && (r.scopes[i] == st.scopes[i] || ListsBelow(r.scopes[i], |r.scopes|, |r.refs|))
  {
    var n, r := |st.scopes|, Attach(st, sc);
    forall i | 0 <= i < n
      ensures SameTables(st.scopes[i], r.scopes[i])
      ensures r.scopes[i] == st.scopes[i] || ListsBelow(r.scopes[i], |r.scopes|, |r.refs|)
    {
      if st.current == Some(i) {
        assert ScopeOk(st.scopes, st.vars, |st.refs|, i);
        assert r.scopes[i] == st.scopes[i].(childScopes := st.scopes[i].childScopes + [n]);
      } else {
        assert r.scopes[i] == st.scopes[i];
      }
    }
  }

  lemma AttachNewOk(st: State, sc: Scope)
    requires Valid(st) && Attachable(st, sc)
    requires st.current.Some? ==> st.current.value < |st.scopes|
    ensures ScopeOk(Attach(st, sc).scopes, st.vars, |st.refs|, |st.scopes|)
  {
    var r := Attach(st, sc);
    assert r.scopes[|st.scopes|] == sc;
    if sc.variableScope < |st.scopes| {
      assert r.scopes[sc.variableScope].scopeType == st.scopes[sc.variableScope].scopeType;
    }
  }

  lemma AttachOpen(st: State, sc: Scope)
    requires Valid(st) && Attachable(st, sc)
    requires st.current.Some? ==> st.current.value < |st.scopes|
    ensures ChainOpen(Attach(st, sc).scopes, |st.scopes|)
  {
    var r := Attach(st, sc);
    assert r.scopes[|st.scopes|] == sc;
    if st.current.Some? {
      var c := st.current.value;
      assert ChainOpen(st.scopes, c);
      assert forall j :: 0 <= j <= c ==> r.scopes[j].upper == st.scopes[j].upper && r.scopes[j].left == st.scopes[j].left;
      ChainOpenFrame(st.scopes, r.scopes, c);
    }
  }

  lemma AttachGrows(st: State, sc: Scope)
    requires st.current.Some? ==> st.current.value < |st.scopes|
    ensures Grows(st, Attach(st, sc))
  {
    var r := Attach(st, sc);
    forall i | 0 <= i < |st.scopes| ensures ScopeGrows(st.scopes[i], r.scopes[i]) {
      if st.current == Some(i) {
        assert r.scopes[i] == st.scopes[i].(childScopes := st.scopes[i].childScopes + [|st.scopes|]);
      } else {
        assert r.scopes[i] == st.scopes[i];
      }
    }
  }

  /** `scope.upper && scope.upper.isStrict` for a scope opened now: the current scope is strict. */
  function UpperStrict(st: State): bool
    requires st.current.Some? ==> st.current.value < |st.scopes|
  {
    st.current.Some? && st.scopes[st.current.value].isStrict
  }

  /** The names a Binding puts in the new scope's table. */
  function Bound(b: Binding): set<string>
  {
    match b
    case BindsName(id) => if IsIdent(id) then {id.value.name} else {}
    case BindsArguments => {"arguments"}
    case BindsNothing => {}
  }

  /** The taints a Binding leaves on the new scope. */
  function Tainted(b: Binding): set<string>
  {
    if b.BindsArguments? then {"arguments"} else {}
  }

  /**
   * The strictness of the new scope: `upper` strict makes it strict,
   * otherwise the rule for its own kind decides.
   */
  function Strict(st: State, o: Opening): Result<bool, Error>
    requires st.current.Some? ==> st.current.value < |st.scopes|
  {
    if UpperStrict(st) then Success(true) else o.ownStrict
  }

  /** The fresh scope of Opening `o`, below the current scope. */
  function FreshOf(st: State, o: Opening, variableScope: Option<ScopeId>, strict: bool): Scope
  {
    Fresh(o.scopeType, o.block, st.current, if variableScope.Some? then variableScope.value else |st.scopes|,
          o.functionExpressionScope, strict)
  }

  /** The variable scope handed to a new scope, where it is not its own. */
  predicate VariableScopeOk(st: State, vs: Option<ScopeId>)
  {
    vs.Some? ==> vs.value < |st.scopes| && OwnsVariables(st.scopes[vs.value].scopeType)
  }

  lemma VariableScopeKept(a: State, b: State, vs: Option<ScopeId>)
    requires VariableScopeOk(a, vs) && Grows(a, b)
    ensures VariableScopeOk(b, vs)
  {
    if vs.Some? {
      assert ScopeGrows(a.scopes[vs.value], b.scopes[vs.value]);
    }
  }

  /**
   * The core of the constructor: the new scope's strictness is decided with
   * the current scope as `upper`, then the scope is attached.  `variableScope`
   * is `None` for a scope that is its own variable scope.
   */
  function Open(st: State, o: Opening, variableScope: Option<ScopeId>): (r: Result<State, Error>)
    requires Valid(st) && VariableScopeOk(st, variableScope)
    requires variableScope.None? <==> OwnsVariables(o.scopeType)
    ensures r.Success? ==> Valid(r.value) && Grows(st, r.value)
    ensures st.current.Some? ==> st.current.value < |st.scopes|
    ensures r.Success? <==> Strict(st, o).Success?
    ensures r.Success? ==> r.value == Attach(st, FreshOf(st, o, variableScope, Strict(st, o).value))
  {
    ValidCurrent(st);
    var strict :- Strict(st, o);
    var sc := FreshOf(st, o, variableScope, strict);
    AttachValid(st, sc);
    AttachGrows(st, sc);
    Success(Attach(st, sc))
  }

  /** `b` differs from `a` at most in the name table, variable list and taints of scope `n`. */
  ghost predicate TablesOnly(a: State, b: State, n: ScopeId)
  {
    && |b.scopes| == |a.scopes| && n < |a.scopes|
    && (forall i :: 0 <= i < |a.scopes| && i != n ==> b.scopes[i] == a.scopes[i])
    && b.scopes[n] == a.scopes[n].(names := b.scopes[n].names, variables := b.scopes[n].variables,
                                   taints := b.scopes[n].taints)
  }

  /** `__define` of a name in a new scope touches only that scope's tables. */
  lemma DefineTables(st: State, n: ScopeId, id: Option<Handle>, def: Definition)
    requires Valid(st) && n < |st.scopes|
    ensures var r := Define(st, n, id, def);
      && TablesOnly(st, r, n) && r.scopes[n].taints == st.scopes[n].taints
      && r.scopes[n].names.Keys == st.scopes[n].names.Keys + (if IsIdent(id) then {id.value.name} else {})
  {
    var r := Define(st, n, id, def);
    if IsIdent(id) {
      var x := id.value.name;
      assert r.scopes[n].names == st.scopes[n].names[x := r.scopes[n].names[x]];
    }
  }

  /** `__defineArguments` touches only the tables of its scope. */
  lemma ArgumentsTables(st: State, n: ScopeId)
    requires Valid(st) && n < |st.scopes|
    ensures var r := DefineArguments(st, n);
      && TablesOnly(st, r, n) && r.scopes[n].taints == st.scopes[n].taints + {"arguments"}
      && r.scopes[n].names.Keys == st.scopes[n].names.Keys + {"arguments"}
  {
    var r := DefineArguments(st, n);
    assert r.scopes[n].names.Keys == st.scopes[n].names["arguments" := r.scopes[n].names["arguments"]].Keys;
  }




  /**
   * The definitions the constructor makes in the new scope `n` on the block
   * `block`: a name scope binds the function expression's name with a
   * FunctionName definition, a function scope other than an arrow
   * function's binds `arguments` and taints it.
   */
  function Populate(st: State, n: ScopeId, b: Binding, block: Handle): (r: State)
    requires Valid(st) && n < |st.scopes|
    ensures Valid(r) && Grows(st, r) && Local(st, r) && TablesOnly(st, r, n)
    ensures r.scopes[n].names.Keys == st.scopes[n].names.Keys + Bound(b)
    ensures r.scopes[n].taints == st.scopes[n].taints + Tainted(b)
  {
    match b
    case BindsName(id) =>
      var def := Definition(FunctionNameDef, id, block, None, None, None);
      DefineTables(st, n, id, def);
      Define(st, n, id, def)
    case BindsArguments =>
      ArgumentsTables(st, n);
      DefineArguments(st, n)
    case BindsNothing => st
  }

  // ---------------------------------------------------------------------
  // What the constructor builds

  /**
   * Scope `sc` is what the constructor builds, as scope `k` below `upper`,
   * for Opening `o`: its type and block, dynamic exactly for global and with
   * scopes, no references yet, the names and taints of its
   * Binding, its own variable scope when its type owns variables, and an
   * implicit table exactly when global.
   */
  ghost predicate Built(sc: Scope, k: ScopeId, o: Opening, upper: Option<ScopeId>)
  {
    && sc.scopeType == o.scopeType && sc.block == o.block && sc.upper == upper
    && sc.dynamic == (o.scopeType == GlobalScope || o.scopeType == WithScope)
    && sc.functionExpressionScope == o.functionExpressionScope
    && !sc.directCallToEvalScope && !sc.thisFound
    && sc.left == Some([]) && sc.through == [] && sc.references == []
    && sc.names.Keys == Bound(o.binds) && sc.taints == Tainted(o.binds)
    && (OwnsVariables(o.scopeType) ==> sc.variableScope == k)
    && (sc.implicit.Some? <==> o.scopeType == GlobalScope)
  }

  /**
   * Of the scopes before the new one, only the current scope changes, and
   * it only gains the new scope as its last child.
   */
  ghost predicate Parented(st: State, r: State)
  {
    && |st.scopes| < |r.scopes|
    && (forall i :: 0 <= i < |st.scopes| && Some(i) != st.current ==> r.scopes[i] == st.scopes[i])
    && (st.current.Some? && st.current.value < |st.scopes| ==>
          r.scopes[st.current.value]
          == st.scopes[st.current.value].(childScopes := st.scopes[st.current.value].childScopes + [|st.scopes|]))
  }

  /** A fresh scope, attached and then populated, is built as the constructor says. */
  lemma PopulatedAs(st: State, r: State, o: Opening, variableScope: Option<ScopeId>, strict: bool)
    requires st.current.Some? ==> st.current.value < |st.scopes|
    requires variableScope.None? <==> OwnsVariables(o.scopeType)
    requires var a := Attach(st, FreshOf(st, o, variableScope, strict));
      && TablesOnly(a, r, |st.scopes|) && r.current == a.current
      && r.scopes[|st.scopes|].names.Keys == a.scopes[|st.scopes|].names.Keys + Bound(o.binds)
      && r.scopes[|st.scopes|].taints == a.scopes[|st.scopes|].taints + Tainted(o.binds)
    ensures var n := |st.scopes|;
      && |r.scopes| == n + 1 && r.current == Some(n)
      && Built(r.scopes[n], n, o, st.current) && r.scopes[n].isStrict == strict && r.scopes[n].childScopes == []
      && (variableScope.Some? ==> r.scopes[n].variableScope == variableScope.value)
      && Parented(st, r)
  {
    var sc := FreshOf(st, o, variableScope, strict);
    AttachAt(st, sc);
    var a := Attach(st, sc);
    var n := |st.scopes|;
    assert r.scopes[n] == sc.(names := r.scopes[n].names, variables := r.scopes[n].variables, taints := r.scopes[n].taints);
    forall i | 0 <= i < n && Some(i) != st.current ensures r.scopes[i] == st.scopes[i] {
      assert r.scopes[i] == a.scopes[i];
    }
    if st.current.Some? {
      assert r.scopes[st.current.value] == a.scopes[st.current.value];
    }
  }

  /** Where `Attach` puts the new scope. */
  lemma AttachAt(st: State, sc: Scope)
    requires st.current.Some? ==> st.current.value < |st.scopes|
    ensures var r := Attach(st, sc); var n := |st.scopes|;
      && |r.scopes| == n + 1 && r.scopes[n] == sc && r.current == Some(n)
      && (forall i :: 0 <= i < n && Some(i) != st.current ==> r.scopes[i] == st.scopes[i])
      && (st.current.Some? ==> r.scopes[st.current.value]
                                 == st.scopes[st.current.value].(childScopes := st.scopes[st.current.value].childScopes + [n]))
  {
  }

  /**
   * One scope of the constructor, once any name scope is in place: opened
   * below the current scope, strict as `Strict` says, populated, and
   * made current.
   */
  function Nest(st: State, o: Opening, variableScope: Option<ScopeId>): (r: Result<State, Error>)
    requires Valid(st) && VariableScopeOk(st, variableScope)
    requires variableScope.None? <==> OwnsVariables(o.scopeType)
    ensures r.Success? ==> Valid(r.value) && Grows(st, r.value)
    ensures r.Success? <==> Strict(st, o).Success?
  {
    var a :- Open(st, o, variableScope);
    var r := Populate(a, |st.scopes|, o.binds, o.block);
    GrowsTrans(st, a, r);
    Success(r)
  }

  /** `Nest` opens a scope built for `o` below the current scope and makes it current. */
  lemma NestShape(st: State, o: Opening, variableScope: Option<ScopeId>)
    requires Valid(st) && VariableScopeOk(st, variableScope)
    requires variableScope.None? <==> OwnsVariables(o.scopeType)
    requires Nest(st, o, variableScope).Success?
    ensures var r := Nest(st, o, variableScope).value; var n := |st.scopes|;
      && |r.scopes| == n + 1 && r.current == Some(n)
      && Built(r.scopes[n], n, o, st.current)
      && r.scopes[n].isStrict == Strict(st, o).value && r.scopes[n].childScopes == []
      && (variableScope.Some? ==> r.scopes[n].variableScope == variableScope.value)
      && Parented(st, r)
  {
    var a := Open(st, o, variableScope).value;
    var r := Populate(a, |st.scopes|, o.binds, o.block);
    PopulatedAs(st, r, o, variableScope, Strict(st, o).value);
  }

  /**
   * `new Scope(...)` for Opening `o`, preceded by the name scope `name` when
   * there is one.  A scope whose type does not own variables takes its
   * variable scope from the current scope, which must exist; it reads it
   * before any name scope is opened.
   */
  function Construct(st: State, o: Opening, name: Option<Opening>): (r: Result<State, Error>)
    requires Valid(st)
    requires name.Some? ==> OwnsVariables(name.value.scopeType)
    ensures r.Success? ==> Valid(r.value) && Grows(st, r.value)
  {
    if !OwnsVariables(o.scopeType) && st.current.None? then Failure(NoCurrentScope)
    else
      var vs := VariableScope(st, o);
      if name.Some? then Named(st, o, name.value, vs) else Nest(st, o, vs)
  }

  /** The variable scope a new scope takes from the current one, `None` when it is its own. */
  function VariableScope(st: State, o: Opening): (vs: Option<ScopeId>)
    requires Valid(st) && (OwnsVariables(o.scopeType) || st.current.Some?)
    ensures VariableScopeOk(st, vs) && (vs.None? <==> OwnsVariables(o.scopeType))
    ensures st.current.Some? ==> st.current.value < |st.scopes|
  {
    ValidCurrent(st);
    if OwnsVariables(o.scopeType) then None else Some(st.scopes[st.current.value].variableScope)
  }

  /** A name scope for `name`, then the scope for `o` inside it. */
  function Named(st: State, o: Opening, name: Opening, variableScope: Option<ScopeId>): (r: Result<State, Error>)
    requires Valid(st) && VariableScopeOk(st, variableScope) && OwnsVariables(name.scopeType)
    requires variableScope.None? <==> OwnsVariables(o.scopeType)
    ensures r.Success? ==> Valid(r.value) && Grows(st, r.value)
  {
    var m :- Nest(st, name, None);
    VariableScopeKept(st, m, variableScope);
    var r :- Nest(m, o, variableScope);
    GrowsTrans(st, m, r);
    Success(r)
  }

  /**
   * `new Scope(scopeManager, block, isMethodDefinition, special)`: a scope
   * of the kind `special` and `block` select, preceded by a name scope when
   * the block is a named FunctionExpression.
   */
  function NestScope(st: State, block: Node, isMethodDefinition: bool, special: SpecialScope, useDirective: bool): (r: Result<State, Error>)
    requires Valid(st)
    ensures r.Success? ==> Valid(r.value) && Grows(st, r.value)
  {
    var name := if NeedsNameScope(block, special) then Some(OpeningOf(block, isMethodDefinition, FunctionExpressionName, useDirective))
                else None;
    Construct(st, OpeningOf(block, isMethodDefinition, special, useDirective), name)
  }

  // ---------------------------------------------------------------------
  // Properties of the constructor

  /** How many scopes `Construct` opens: the name scope, if any, and the scope itself. */
  function Count(name: Option<Opening>): nat
  {
    if name.Some? then 2 else 1
  }

  /** `Nest` adds one scope and makes it current. */
  lemma NestCount(st: State, o: Opening, variableScope: Option<ScopeId>)
    requires Valid(st) && VariableScopeOk(st, variableScope)
    requires variableScope.None? <==> OwnsVariables(o.scopeType)
    requires Nest(st, o, variableScope).Success?
    ensures var r := Nest(st, o, variableScope).value;
      |r.scopes| == |st.scopes| + 1 && r.current == Some(|st.scopes|)
  {
    AttachAt(st, FreshOf(st, o, variableScope, Strict(st, o).value));
  }

  /** `Construct` when it gets past the variable scope. */
  lemma ConstructCases(st: State, o: Opening, name: Option<Opening>)
    requires Valid(st) && (name.Some? ==> OwnsVariables(name.value.scopeType))
    requires OwnsVariables(o.scopeType) || st.current.Some?
    ensures Construct(st, o, name)
            == if name.Some? then Named(st, o, name.value, VariableScope(st, o)) else Nest(st, o, VariableScope(st, o))
  {
  }

  /** The two steps of `Named`. */
  lemma NamedSteps(st: State, o: Opening, name: Opening, variableScope: Option<ScopeId>)
    requires Valid(st) && VariableScopeOk(st, variableScope) && OwnsVariables(name.scopeType)
    requires variableScope.None? <==> OwnsVariables(o.scopeType)
    requires Named(st, o, name, variableScope).Success?
    ensures Nest(st, name, None).Success?
    ensures var m := Nest(st, name, None).value;
      && Valid(m) && VariableScopeOk(m, variableScope) && Nest(m, o, variableScope).Success?
      && Named(st, o, name, variableScope) == Nest(m, o, variableScope)
  {
    VariableScopeKept(st, Nest(st, name, None).value, variableScope);
  }

  /**
   * The last scope `Construct` opens is the new current scope, built for
   * `o`, below the name scope when there is one and otherwise below the
   * scope that was current; it is strict exactly when that upper scope is
   * strict or its own rule says so; a scope that does not own variables
   * shares the variable scope of the scope that was current.
   */
  lemma ConstructOpens(st: State, o: Opening, name: Option<Opening>)
    requires Valid(st) && (name.Some? ==> OwnsVariables(name.value.scopeType))
    requires Construct(st, o, name).Success?
    ensures var r := Construct(st, o, name).value; var k := |r.scopes| - 1;
      var upper := if name.Some? then Some(k - 1) else st.current;
      && |r.scopes| == |st.scopes| + Count(name) && r.current == Some(k)
      && (upper.Some? ==> upper.value < k)
      && Built(r.scopes[k], k, o, upper) && r.scopes[k].childScopes == []
      && (r.scopes[k].isStrict <==> (upper.Some? && r.scopes[upper.value].isStrict) || o.ownStrict == Success(true))
      && (!OwnsVariables(o.scopeType) ==>
            st.current.Some? && st.current.value < |st.scopes|
            && r.scopes[k].variableScope == st.scopes[st.current.value].variableScope)
  {
    ConstructCases(st, o, name);
    if name.Some? {
      NamedOpens(st, o, name.value, VariableScope(st, o));
    } else {
      var vs := VariableScope(st, o);
      NestShape(st, o, vs);
      LastScope(st, Nest(st, o, vs).value, o);
    }
  }

  lemma NamedOpens(st: State, o: Opening, name: Opening, variableScope: Option<ScopeId>)
    requires Valid(st) && VariableScopeOk(st, variableScope) && OwnsVariables(name.scopeType)
    requires variableScope.None? <==> OwnsVariables(o.scopeType)
    requires Named(st, o, name, variableScope).Success?
    ensures var r := Named(st, o, name, variableScope).value; var k := |st.scopes| + 1;
      && |r.scopes| == k + 1 && r.current == Some(k)
      && Built(r.scopes[k], k, o, Some(k - 1)) && r.scopes[k].childScopes == []
      && (r.scopes[k].isStrict <==> r.scopes[k - 1].isStrict || o.ownStrict == Success(true))
      && (variableScope.Some? ==> r.scopes[k].variableScope == variableScope.value)
  {
    NamedSteps(st, o, name, variableScope);
    var m := Nest(st, name, None).value;
    NestCount(st, name, None);
    NestShape(m, o, variableScope);
    LastScope(m, Nest(m, o, variableScope).value, o);
  }

  /** The scope `Nest` opened is strict exactly when its upper scope is, or its own rule says so. */
  lemma LastScope(st: State, r: State, o: Opening)
    requires st.current.Some? ==> st.current.value < |st.scopes|
    requires Strict(st, o).Success?
    requires var n := |st.scopes|;
      && |r.scopes| == n + 1 && r.scopes[n].isStrict == Strict(st, o).value && Parented(st, r)
    ensures var n := |st.scopes|;
      r.scopes[n].isStrict <==> (st.current.Some? && r.scopes[st.current.value].isStrict) || o.ownStrict == Success(true)
  {
    if st.current.Some? {
      ParentedAt(st, r);
    }
  }

  /**
   * The name scope of a named FunctionExpression comes first: built for
   * `name` below the scope that was current, strict by the same rule, with
   * the function's scope as its only child.
   */
  lemma ConstructNameScope(st: State, o: Opening, name: Option<Opening>)
    requires Valid(st) && name.Some? && OwnsVariables(name.value.scopeType)
    requires Construct(st, o, name).Success?
    ensures var r := Construct(st, o, name).value; var n := |st.scopes|;
      && |r.scopes| == n + 2 && r.current == Some(n + 1) && r.scopes[n + 1].upper == Some(n)
      && Built(r.scopes[n], n, name.value, st.current) && r.scopes[n].childScopes == [n + 1]
      && (r.scopes[n].isStrict <==> UpperStrict(st) || name.value.ownStrict == Success(true))
  {
    var vs := VariableScope(st, o);
    ConstructCases(st, o, name);
    NamedSteps(st, o, name.value, vs);
    var m := Nest(st, name.value, None).value;
    NestShape(st, name.value, None);
    NestShape(m, o, vs);
    NameScopeKept(st, m, Nest(m, o, vs).value, name.value);
  }

  /** The name scope `m` has just made current survives the next scope unchanged but for its child. */
  lemma NameScopeKept(st: State, m: State, r: State, name: Opening)
    requires st.current.Some? ==> st.current.value < |st.scopes|
    requires var n := |st.scopes|;
      && |m.scopes| == n + 1 && m.current == Some(n)
      && Built(m.scopes[n], n, name, st.current) && m.scopes[n].childScopes == []
      && Strict(st, name).Success? && m.scopes[n].isStrict == Strict(st, name).value
      && Parented(m, r) && |r.scopes| == n + 2
    ensures var n := |st.scopes|;
      && Built(r.scopes[n], n, name, st.current) && r.scopes[n].childScopes == [n + 1]
      && (r.scopes[n].isStrict <==> UpperStrict(st) || name.ownStrict == Success(true))
  {
    ParentedAt(m, r);
  }

  /** What `Parented` says of the scope that was current. */
  lemma ParentedAt(st: State, r: State)
    requires Parented(st, r) && st.current.Some? && st.current.value < |st.scopes|
    ensures r.scopes[st.current.value]
            == st.scopes[st.current.value].(childScopes := st.scopes[st.current.value].childScopes + [|st.scopes|])
  {
  }

  /**
   * `Construct` changes no scope that existed before but the current one,
   * which gains the first new scope as its last child.
   */
  lemma ConstructParent(st: State, o: Opening, name: Option<Opening>)
    requires Valid(st) && (name.Some? ==> OwnsVariables(name.value.scopeType))
    requires Construct(st, o, name).Success?
    ensures Parented(st, Construct(st, o, name).value)
  {
    var vs := VariableScope(st, o);
    ConstructCases(st, o, name);
    if name.Some? {
      NamedSteps(st, o, name.value, vs);
      var m := Nest(st, name.value, None).value;
      NestShape(st, name.value, None);
      NestShape(m, o, vs);
      var r := Nest(m, o, vs).value;
      var n := |st.scopes|;
      forall i | 0 <= i < n && Some(i) != st.current ensures r.scopes[i] == st.scopes[i] {
        assert r.scopes[i] == m.scopes[i];
      }
      if st.current.Some? {
        assert r.scopes[st.current.value] == m.scopes[st.current.value];
      }
    } else {
      NestShape(st, o, vs);
    }
  }

  /** The constructor fails with NoCurrentScope when a scope that does not own variables has no current scope to take them from. */
  lemma ConstructNoCurrent(st: State, o: Opening, name: Option<Opening>)
    requires Valid(st) && (name.Some? ==> OwnsVariables(name.value.scopeType))
    requires !OwnsVariables(o.scopeType) && st.current.None?
    ensures Construct(st, o, name) == Failure(NoCurrentScope)
  {
  }

  /** Any other failure of the constructor is that of the strictness rule of a scope it opens. */
  lemma ConstructErrors(st: State, o: Opening, name: Option<Opening>)
    requires Valid(st) && (name.Some? ==> OwnsVariables(name.value.scopeType))
    requires Construct(st, o, name).Failure? && Construct(st, o, name).error != NoCurrentScope
    ensures o.ownStrict == Failure(Construct(st, o, name).error)
            || (name.Some? && name.value.ownStrict == Failure(Construct(st, o, name).error))
  {
    var vs := VariableScope(st, o);
    ConstructCases(st, o, name);
    if name.Some? && Nest(st, name.value, None).Success? {
      var m := Nest(st, name.value, None).value;
      VariableScopeKept(st, m, vs);
      assert Named(st, o, name.value, vs) == Nest(m, o, vs);
    }
  }

  /**
   * The constructor succeeds when the variable scope can be found and the
   * strictness rule succeeds for every scope it opens.
   */
  lemma ConstructSucceeds(st: State, o: Opening, name: Option<Opening>)
    requires Valid(st) && (name.Some? ==> OwnsVariables(name.value.scopeType))
    requires OwnsVariables(o.scopeType) || st.current.Some?
    requires o.ownStrict.Success? && (name.Some? ==> name.value.ownStrict.Success?)
    ensures Construct(st, o, name).Success?
  {
    var vs := VariableScope(st, o);
    ConstructCases(st, o, name);
    if name.Some? {
      NestSucceeds(st, name.value, None);
      var m := Nest(st, name.value, None).value;
      VariableScopeKept(st, m, vs);
      NestSucceeds(m, o, vs);
      assert Named(st, o, name.value, vs) == Nest(m, o, vs);
    } else {
      NestSucceeds(st, o, vs);
    }
  }

  /** `Nest` fails only by the strictness rule. */
  lemma NestSucceeds(st: State, o: Opening, variableScope: Option<ScopeId>)
    requires Valid(st) && VariableScopeOk(st, variableScope)
    requires variableScope.None? <==> OwnsVariables(o.scopeType)
    requires o.ownStrict.Success?
    ensures Nest(st, o, variableScope).Success?
  {
    ValidCurrent(st);
  }

  /**
   * Closing the scope the constructor made current makes the scope that was
   * current before it current again (RAII: `__nestScope` and `__close`
   * pair up).
   */
  lemma ConstructThenClose(st: State, o: Opening, optimistic: bool)
    requires Valid(st) && Construct(st, o, None).Success?
    ensures var r := Construct(st, o, None).value;
      && Valid(r) && r.current == Some(|r.scopes| - 1)
      && Close(r, |r.scopes| - 1, optimistic).current == st.current
  {
    ConstructOpens(st, o, None);
    var r := Construct(st, o, None).value;
    CloseValid(r, |r.scopes| - 1, optimistic);
  }

  /** Closing the current scope makes its upper scope current. */
  lemma CloseRestores(r: State, k: ScopeId, optimistic: bool, u: Option<ScopeId>)
    requires Valid(r) && r.current == Some(k) && r.scopes[k].upper == u
    ensures Valid(Close(r, k, optimistic)) && Close(r, k, optimistic).current == u
    ensures Grows(r, Close(r, k, optimistic))
  {
    CloseValid(r, k, optimistic);
  }

  /** Two closes from a scope whose upper's upper is `u` make `u` current. */
  lemma CloseTwice(r: State, k: ScopeId, optimistic: bool, u: Option<ScopeId>)
    requires Valid(r) && k > 0 && r.current == Some(k)
    requires r.scopes[k].upper == Some(k - 1) && r.scopes[k - 1].upper == u
    ensures var c := Close(r, k, optimistic);
      && Valid(c) && c.current == Some(k - 1)
      && Close(c, k - 1, optimistic).current == u
  {
    CloseRestores(r, k, optimistic, Some(k - 1));
    var c := Close(r, k, optimistic);
    assert ScopeGrows(r.scopes[k - 1], c.scopes[k - 1]);
    CloseRestores(c, k - 1, optimistic, u);
  }

  /**
   * With a name scope, two closes are needed: the first makes the name scope
   * current, the second the scope that was current before.
   */
  lemma ConstructNamedThenClose(st: State, o: Opening, name: Opening, optimistic: bool)
    requires Valid(st) && OwnsVariables(name.scopeType) && Construct(st, o, Some(name)).Success?
    ensures var r := Construct(st, o, Some(name)).value; var k := |r.scopes| - 1;
      && Valid(r) && r.current == Some(k) && k == |st.scopes| + 1
      && var c := Close(r, k, optimistic);
      && Valid(c) && c.current == Some(k - 1)
      && Close(c, k - 1, optimistic).current == st.current
  {
    NamedLinks(st, o, name);
    var r := Construct(st, o, Some(name)).value;
    CloseTwice(r, |r.scopes| - 1, optimistic, st.current);
  }

  /** The upper links a named construction leaves behind. */
  lemma NamedLinks(st: State, o: Opening, name: Opening)
    requires Valid(st) && OwnsVariables(name.scopeType) && Construct(st, o, Some(name)).Success?
    ensures var r := Construct(st, o, Some(name)).value; var k := |r.scopes| - 1;
      && Valid(r) && k == |st.scopes| + 1 && r.current == Some(k)
      && r.scopes[k].upper == Some(k - 1) && r.scopes[k - 1].upper == st.current
  {
    ConstructNameScope(st, o, Some(name));
  }
}
