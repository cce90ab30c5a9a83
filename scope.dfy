/**
 * The scope records of lib/scope.js, held in arenas: scopes, variables and
 * references are indices into the sequences of a `State`, and `upper`,
 * `resolved` and the list fields hold indices.  Every Scope method of the
 * source has a pure specification here, proved to keep the arena invariant
 * `Valid` and to only let the analysis grow (`Grows`).
 */
module Scopes {
  import opened Base
  import opened Ast

  type ScopeId = nat
  type VarId = nat
  type RefId = nat

  /** The `type` string of a Scope. */
  datatype ScopeType =
    | GlobalScope | ModuleScope | FunctionScope | BlockScope | SwitchScope
    | CatchScope | WithScope | ClassScope | ForScope | TDZScope

  /** SCOPE_NORMAL, SCOPE_MODULE, SCOPE_FUNCTION_EXPRESSION_NAME and SCOPE_TDZ. */
  datatype SpecialScope = Normal | Module | FunctionExpressionName | TDZ

  /** The `Variable.*` definition types. */
  datatype DefType =
    | CatchClauseDef | ParameterDef | FunctionNameDef | ClassNameDef
    | VariableDef | ImportBindingDef | TDZDef | ImplicitGlobalDef

  /** Reference.READ = 1, Reference.WRITE = 2, Reference.RW = 3. */
  datatype AccessFlag = Read | Write | ReadWrite
  {
    function Bits(): nat { match this case Read => 1 case Write => 2 case ReadWrite => 3 }
    predicate IsWrite() { Bits() % 4 >= 2 }
    predicate IsRead() { Bits() % 2 == 1 }
  }

  /**
   * A syntax node as the records hold it: by its id, with the name when it is
   * an Identifier.  Records compare nodes by identity, which the id captures.
   */
  datatype Handle = Ident(nid: NodeId, name: string) | Other(nid: NodeId)
  {
    /** The `name` property, which only an Identifier has. */
    function Name(): string { if Ident? then name else "" }
  }

  /** The handle of a full syntax node. */
  function HandleOf(n: Node): (h: Handle)
    ensures h.nid == n.nid
    ensures h.Ident? <==> n.Identifier?
    ensures n.Identifier? ==> h.name == n.name
  {
    if n.Identifier? then Ident(n.nid, n.name) else Other(n.nid)
  }

  /** The `{pattern, node}` record a write may carry for implicit-global promotion. */
  datatype ImplicitInfo = ImplicitInfo(pattern: Handle, node: Handle)

  /**
   * A Reference.  `writeExpr` and `partial` are kept only when the mode
   * includes WRITE.
   */
  datatype Reference = Reference(
    identifier: Handle,
    from: ScopeId,
    tainted: bool,
    resolved: Option<VarId>,
    flag: AccessFlag,
    writeExpr: Option<Handle>,
    partial: bool,
    maybeImplicitGlobal: Option<ImplicitInfo>)

  datatype Definition = Definition(
    defType: DefType,
    name: Option<Handle>,
    node: Handle,
    parent: Option<Handle>,
    index: Option<nat>,
    kind: Option<DeclKind>)

  datatype Variable = Variable(
    name: string,
    identifiers: seq<Handle>,
    references: seq<RefId>,
    defs: seq<Definition>,
    tainted: bool,
    stack: bool,
    scope: ScopeId)

  /** `globalScope.implicit`: the implicit globals and the references left at the global close. */
  datatype Implicit = Implicit(names: map<string, VarId>, variables: seq<VarId>, left: seq<RefId>)

  /**
   * A Scope.  `names` is the `set` map and `left` is `__left` (`None` once the
   * scope is closed).  The `taints` map, whose values are always true, is the
   * set of its keys.
   */
  datatype Scope = Scope(
    scopeType: ScopeType,
    names: map<string, VarId>,
    taints: set<string>,
    dynamic: bool,
    block: Handle,
    through: seq<RefId>,
    variables: seq<VarId>,
    references: seq<RefId>,
    variableScope: ScopeId,
    functionExpressionScope: bool,
    directCallToEvalScope: bool,
    thisFound: bool,
    left: Option<seq<RefId>>,
    upper: Option<ScopeId>,
    isStrict: bool,
    childScopes: seq<ScopeId>,
    implicit: Option<Implicit>)

  /** The analysis options the ScopeManager consults. */
  datatype Options = Options(
    optimistic: bool,
    directive: bool,
    ecmaVersion: int,
    sourceModule: bool,
    ignoreEval: bool)
  {
    predicate IsES6() { ecmaVersion >= 6 }
  }

  /** The whole analysis state: the ScopeManager's arenas and current scope. */
  datatype State = State(
    scopes: seq<Scope>,
    vars: seq<Variable>,
    refs: seq<Reference>,
    nodeToScope: map<NodeId, seq<ScopeId>>,
    current: Option<ScopeId>,
    globalScope: Option<ScopeId>)

  /** The failures the source raises: a TypeError on a null current scope, and its assertions. */
  datatype Error =
    | NoCurrentScope
    | ScopeNotClosed
    | NotAnIdentifier
    | NoArgumentsVariable
    | ImportOutsideModule
    | MalformedNode

  const EmptyState := State([], [], [], map[], None, None)

  predicate OwnsVariables(t: ScopeType)
  {
    t == GlobalScope || t == FunctionScope || t == ModuleScope
  }

  // ---------------------------------------------------------------------
  // The arena invariant

  /** A name table and its variable list agree, and the names are unique. */
  ghost predicate NamesOk(vars: seq<Variable>, id: ScopeId, names: map<string, VarId>, variables: seq<VarId>)
  {
    && NoDup(variables)
    && (forall k :: k in names ==>
          names[k] < |vars| && vars[names[k]].name == k && vars[names[k]].scope == id && names[k] in variables)
    && (forall v :: v in variables ==> v < |vars| && vars[v].name in names && names[vars[v].name] == v)
  }

  ghost predicate ScopeOk(scopes: seq<Scope>, vars: seq<Variable>, nRefs: nat, i: nat)
    requires i < |scopes|
  {
    var sc := scopes[i];
    && (sc.upper.Some? ==> sc.upper.value < i)
    && sc.variableScope <= i
    && OwnsVariables(scopes[sc.variableScope].scopeType)
    && NamesOk(vars, i, sc.names, sc.variables)
    && Below(sc.references, nRefs)
    && Below(sc.through, nRefs)
    && Below(sc.childScopes, |scopes|)
    && (sc.left.Some? ==> Below(sc.left.value, nRefs))
    && (sc.scopeType == GlobalScope <==> sc.implicit.Some?)
    && (sc.implicit.Some? ==>
          NamesOk(vars, i, sc.implicit.value.names, sc.implicit.value.variables)
          && Below(sc.implicit.value.left, nRefs))
  }

  ghost predicate VarOk(nScopes: nat, nRefs: nat, x: Variable)
  {
    x.scope < nScopes && Below(x.references, nRefs)
  }

  ghost predicate RefOk(nScopes: nat, nVars: nat, r: Reference)
  {
    r.identifier.Ident? && r.from < nScopes && (r.resolved.Some? ==> r.resolved.value < nVars)
  }

  /** Every scope on the `upper` chain from `c` to the root is still open. */
  ghost predicate ChainOpen(scopes: seq<Scope>, c: ScopeId)
    decreases c
  {
    && c < |scopes|
    && scopes[c].left.Some?
    && (scopes[c].upper.Some? ==> scopes[c].upper.value < c && ChainOpen(scopes, scopes[c].upper.value))
  }

  ghost predicate Valid(st: State)
  {
    && (forall i {:trigger ScopeOk(st.scopes, st.vars, |st.refs|, i)} :: 0 <= i < |st.scopes| ==> ScopeOk(st.scopes, st.vars, |st.refs|, i))
    && (forall v {:trigger VarOk(|st.scopes|, |st.refs|, st.vars[v])} :: 0 <= v < |st.vars| ==> VarOk(|st.scopes|, |st.refs|, st.vars[v]))
    && (forall r {:trigger RefOk(|st.scopes|, |st.vars|, st.refs[r])} :: 0 <= r < |st.refs| ==> RefOk(|st.scopes|, |st.vars|, st.refs[r]))
    && (forall k :: k in st.nodeToScope ==> Below(st.nodeToScope[k], |st.scopes|))
    && (st.current.Some? ==> ChainOpen(st.scopes, st.current.value))
    && (st.globalScope.Some? ==>
          st.globalScope.value < |st.scopes| && st.scopes[st.globalScope.value].scopeType == GlobalScope)
  }

  // ---------------------------------------------------------------------
  // Growth: what no operation ever takes back

  ghost predicate ScopeGrows(x: Scope, y: Scope)
  {
    && y.scopeType == x.scopeType && y.block == x.block && y.upper == x.upper
    && y.variableScope == x.variableScope && y.isStrict == x.isStrict
    && y.functionExpressionScope == x.functionExpressionScope
    && (forall k :: k in x.names ==> k in y.names && y.names[k] == x.names[k])
    && x.variables <= y.variables && x.references <= y.references
    && x.through <= y.through && x.childScopes <= y.childScopes
    && x.taints <= y.taints
    && (x.dynamic ==> y.dynamic) && (x.thisFound ==> y.thisFound)
    && (x.directCallToEvalScope ==> y.directCallToEvalScope)
    && (x.left.None? ==> y.left.None?)
  }

  /** A Variable only gains; its `stack` flag can only go from true to false. */
  ghost predicate VarGrows(x: Variable, y: Variable)
  {
    && y.name == x.name && y.scope == x.scope
    && x.identifiers <= y.identifiers && x.defs <= y.defs && x.references <= y.references
    && (y.stack ==> x.stack) && (x.tainted ==> y.tainted)
  }

  ghost predicate RefGrows(x: Reference, y: Reference)
  {
    && y.identifier == x.identifier && y.from == x.from && y.flag == x.flag
    && y.writeExpr == x.writeExpr && y.partial == x.partial
    && y.maybeImplicitGlobal == x.maybeImplicitGlobal
    && (x.tainted ==> y.tainted)
  }

  ghost predicate Grows(a: State, b: State)
  {
    && |a.scopes| <= |b.scopes| && |a.vars| <= |b.vars| && |a.refs| <= |b.refs|
    && (forall i {:trigger ScopeGrows(a.scopes[i], b.scopes[i])} :: 0 <= i < |a.scopes| ==> ScopeGrows(a.scopes[i], b.scopes[i]))
    && (forall v {:trigger VarGrows(a.vars[v], b.vars[v])} :: 0 <= v < |a.vars| ==> VarGrows(a.vars[v], b.vars[v]))
    && (forall r {:trigger RefGrows(a.refs[r], b.refs[r])} :: 0 <= r < |a.refs| ==> RefGrows(a.refs[r], b.refs[r]))
    && (forall k :: k in a.nodeToScope ==> k in b.nodeToScope && a.nodeToScope[k] <= b.nodeToScope[k])
  }

  lemma GrowsRefl(a: State)
    ensures Grows(a, a)
  {
  }

  lemma GrowsTrans(a: State, b: State, c: State)
    requires Grows(a, b) && Grows(b, c)
    ensures Grows(a, c)
  {
    forall i | 0 <= i < |a.scopes| ensures ScopeGrows(a.scopes[i], c.scopes[i]) {
      assert ScopeGrows(a.scopes[i], b.scopes[i]) && ScopeGrows(b.scopes[i], c.scopes[i]);
    }
    forall v | 0 <= v < |a.vars| ensures VarGrows(a.vars[v], c.vars[v]) {
      assert VarGrows(a.vars[v], b.vars[v]) && VarGrows(b.vars[v], c.vars[v]);
    }
    forall r | 0 <= r < |a.refs| ensures RefGrows(a.refs[r], c.refs[r]) {
      assert RefGrows(a.refs[r], b.refs[r]) && RefGrows(b.refs[r], c.refs[r]);
    }
  }

  // ---------------------------------------------------------------------
  // Frame lemmas: the invariant survives local changes

  /** Names and owning scopes of the existing variables are kept. */
  ghost predicate VarsFrame(a: seq<Variable>, b: seq<Variable>)
  {
    |a| <= |b| && forall w :: 0 <= w < |a| ==> b[w].name == a[w].name && b[w].scope == a[w].scope
  }

  /** The types of the existing scopes are kept. */
  ghost predicate ScopesFrame(a: seq<Scope>, b: seq<Scope>)
  {
    |a| <= |b| && forall j :: 0 <= j < |a| ==> b[j].scopeType == a[j].scopeType
  }

  lemma NamesOkFrame(a: seq<Variable>, b: seq<Variable>, id: ScopeId, names: map<string, VarId>, variables: seq<VarId>)
    requires NamesOk(a, id, names, variables) && VarsFrame(a, b)
    ensures NamesOk(b, id, names, variables)
  {
  }

  /** Two versions of a scope with the same type, links and name tables. */
  ghost predicate SameTables(x: Scope, y: Scope)
  {
    && y.scopeType == x.scopeType && y.upper == x.upper && y.variableScope == x.variableScope
    && y.names == x.names && y.variables == x.variables
    && y.implicit.Some? == x.implicit.Some?
    && (x.implicit.Some? ==>
          y.implicit.value.names == x.implicit.value.names && y.implicit.value.variables == x.implicit.value.variables)
  }

  /** The reference and scope lists of a scope stay inside the arenas. */
  ghost predicate ListsBelow(sc: Scope, nScopes: nat, nRefs: nat)
  {
    && Below(sc.references, nRefs) && Below(sc.through, nRefs) && Below(sc.childScopes, nScopes)
    && (sc.left.Some? ==> Below(sc.left.value, nRefs))
    && (sc.implicit.Some? ==> Below(sc.implicit.value.left, nRefs))
  }

  lemma ScopeOkFrame(a: seq<Scope>, va: seq<Variable>, na: nat, b: seq<Scope>, vb: seq<Variable>, nb: nat, i: nat)
    requires i < |a| && ScopeOk(a, va, na, i)
    requires ScopesFrame(a, b) && SameTables(a[i], b[i]) && VarsFrame(va, vb) && na <= nb
    requires b[i] == a[i] || ListsBelow(b[i], |b|, nb)
    ensures ScopeOk(b, vb, nb, i)
  {
    var sc := a[i];
    NamesOkFrame(va, vb, i, sc.names, sc.variables);
    if sc.implicit.Some? {
      NamesOkFrame(va, vb, i, sc.implicit.value.names, sc.implicit.value.variables);
    }
  }

  lemma ChainOpenFrame(a: seq<Scope>, b: seq<Scope>, c: ScopeId)
    requires ChainOpen(a, c) && |a| <= |b|
    requires forall j :: 0 <= j <= c ==> b[j].upper == a[j].upper && (a[j].left.Some? ==> b[j].left.Some?)
    ensures ChainOpen(b, c)
    decreases c
  {
    if a[c].upper.Some? {
      ChainOpenFrame(a, b, a[c].upper.value);
    }
  }

  lemma CurrentOpenFrame(a: State, b: State)
    requires a.current.Some? ==> ChainOpen(a.scopes, a.current.value)
    requires b.current == a.current && |a.scopes| <= |b.scopes|
    requires forall j :: 0 <= j < |a.scopes| ==> b.scopes[j].upper == a.scopes[j].upper && (a.scopes[j].left.Some? ==> b.scopes[j].left.Some?)
    ensures b.current.Some? ==> ChainOpen(b.scopes, b.current.value)
  {
    if a.current.Some? {
      ChainOpenFrame(a.scopes, b.scopes, a.current.value);
    }
  }

  /** The fields of a reference the invariant speaks about. */
  ghost predicate RefSame(x: Reference, y: Reference)
  {
    y.identifier == x.identifier && y.from == x.from && y.resolved == x.resolved
  }

  /**
   * `Valid` is kept by a change that re-establishes the invariant for the scopes,
   * variables and references it touches or adds (`cs`, `cv`, `cr`); the other
   * scopes keep their tables and may only have their lists changed within the arenas.
   */
  lemma ValidFrame(st: State, st': State, cs: set<ScopeId>, cv: set<VarId>, cr: set<RefId>)
    requires Valid(st)
    requires ScopesFrame(st.scopes, st'.scopes) && VarsFrame(st.vars, st'.vars) && |st.refs| <= |st'.refs|
    requires forall i :: 0 <= i < |st'.scopes| ==>
      if i < |st.scopes| && i !in cs then
        SameTables(st.scopes[i], st'.scopes[i])
        && (st'.scopes[i] == st.scopes[i] || ListsBelow(st'.scopes[i], |st'.scopes|, |st'.refs|))
      else ScopeOk(st'.scopes, st'.vars, |st'.refs|, i)
    requires forall v :: 0 <= v < |st'.vars| ==>
      if v < |st.vars| && v !in cv then st'.vars[v].references == st.vars[v].references && st'.vars[v].scope == st.vars[v].scope
      else VarOk(|st'.scopes|, |st'.refs|, st'.vars[v])
    requires forall r :: 0 <= r < |st'.refs| ==>
      if r < |st.refs| && r !in cr then RefSame(st.refs[r], st'.refs[r]) else RefOk(|st'.scopes|, |st'.vars|, st'.refs[r])
    requires forall k :: k in st'.nodeToScope ==> Below(st'.nodeToScope[k], |st'.scopes|)
    requires st'.current.Some? ==> ChainOpen(st'.scopes, st'.current.value)
    requires st'.globalScope.Some? ==>
      st'.globalScope.value < |st'.scopes| && st'.scopes[st'.globalScope.value].scopeType == GlobalScope
    ensures Valid(st')
  {
    forall i | 0 <= i < |st'.scopes| ensures ScopeOk(st'.scopes, st'.vars, |st'.refs|, i) {
      if i < |st.scopes| && i !in cs {
        ScopeOkFrame(st.scopes, st.vars, |st.refs|, st'.scopes, st'.vars, |st'.refs|, i);
      }
    }
    forall v | 0 <= v < |st'.vars| ensures VarOk(|st'.scopes|, |st'.refs|, st'.vars[v]) {
      if v < |st.vars| && v !in cv {
        assert VarOk(|st.scopes|, |st.refs|, st.vars[v]);
      }
    }
    forall r | 0 <= r < |st'.refs| ensures RefOk(|st'.scopes|, |st'.vars|, st'.refs[r]) {
      if r < |st.refs| && r !in cr {
        assert RefOk(|st.scopes|, |st.vars|, st.refs[r]);
      }
    }
  }

  /** A local change: no scope is added, opened or closed, and the current and global scopes stay. */
  ghost predicate Local(a: State, b: State)
  {
    && |b.scopes| == |a.scopes|
    && b.current == a.current && b.globalScope == a.globalScope && b.nodeToScope == a.nodeToScope
    && (forall i :: 0 <= i < |a.scopes| ==> b.scopes[i].left.Some? == a.scopes[i].left.Some?)
  }

  // ---------------------------------------------------------------------
  // Defining names (lib/scope.js __defineGeneric, __defineArguments, __defineImplicit, __define)

  /** The name table `__defineGeneric` is given: `set`, or `implicit.set`. */
  function Table(sc: Scope, inImplicit: bool): map<string, VarId>
    requires inImplicit ==> sc.implicit.Some?
  {
    if inImplicit then sc.implicit.value.names else sc.names
  }

  /** The variable list `__defineGeneric` is given: `variables`, or `implicit.variables`. */
  function VarList(sc: Scope, inImplicit: bool): seq<VarId>
    requires inImplicit ==> sc.implicit.Some?
  {
    if inImplicit then sc.implicit.value.variables else sc.variables
  }

  function NewVariable(name: string, s: ScopeId): Variable
  {
    Variable(name, [], [], [], false, true, s)
  }

  /** `x` with `def` and `node`, when given, appended to its definitions and identifiers. */
  function Extend(x: Variable, node: Option<Handle>, def: Option<Definition>): Variable
  {
    x.(defs := x.defs + Opt(def), identifiers := x.identifiers + Opt(node))
  }

  /**
   * What `__defineGeneric` leaves behind: `name` is bound in the table to a
   * Variable of that name owned by scope `s`.  A name already bound keeps its
   * Variable, which receives `def` and `node`; a fresh name gets a new
   * Variable, added to the table and to the end of the list.  Nothing else
   * changes.
   */
  ghost predicate Defined(st: State, r: State, s: ScopeId, name: string, inImplicit: bool,
                          node: Option<Handle>, def: Option<Definition>)
    requires s < |st.scopes|
    requires inImplicit ==> st.scopes[s].implicit.Some?
  {
    && |r.scopes| == |st.scopes|
    && (inImplicit ==> r.scopes[s].implicit.Some?)
    && var t, l := Table(st.scopes[s], inImplicit), VarList(st.scopes[s], inImplicit);
    && var t', l' := Table(r.scopes[s], inImplicit), VarList(r.scopes[s], inImplicit);
    && name in t'
    && var v := t'[name];
    && v < |r.vars| && r.vars[v].name == name && r.vars[v].scope == s
    && r.scopes[s] == WithTable(st.scopes[s], inImplicit, t', l')
    && (forall i :: 0 <= i < |st.scopes| && i != s ==> r.scopes[i] == st.scopes[i])
    && if name in t then
         && v == t[name] && v < |st.vars| && t' == t && l' == l
         && r.vars == st.vars[v := Extend(st.vars[v], node, def)]
       else
         && v == |st.vars| && t' == t[name := v] && l' == l + [v]
         && r.vars == st.vars + [Extend(NewVariable(name, s), node, def)]
  }

  /**
   * `__defineGeneric`: the Variable already bound to `name` in the table, or a
   * new one added to the table and its list, receives `def` and `node`.
   */
  function DefineGeneric(st: State, s: ScopeId, name: string, inImplicit: bool,
                         node: Option<Handle>, def: Option<Definition>): (r: State)
    requires Valid(st) && s < |st.scopes|
    requires inImplicit ==> st.scopes[s].implicit.Some?
    ensures Valid(r) && Grows(st, r) && Local(st, r) && r.refs == st.refs
    ensures Defined(st, r, s, name, inImplicit, node, def)
  {
    assert ScopeOk(st.scopes, st.vars, |st.refs|, s);
    if name in Table(st.scopes[s], inImplicit) then
      AddToVariable(st, s, Table(st.scopes[s], inImplicit)[name], node, def)
    else
      AddVariable(st, s, name, inImplicit, node, def)
  }

  /** The merge case of `__defineGeneric`: the existing Variable `v` gains `def` and `node`. */
  function AddToVariable(st: State, s: ScopeId, v: VarId, node: Option<Handle>, def: Option<Definition>): (r: State)
    requires Valid(st) && v < |st.vars|
    ensures Valid(r) && Grows(st, r) && Local(st, r) && r.refs == st.refs && r.scopes == st.scopes
    ensures r.vars == st.vars[v := Extend(st.vars[v], node, def)]
  {
    var x := st.vars[v];
    var r := st.(vars := st.vars[v := Extend(x, node, def)]);
    ValidFrame(st, r, {}, {}, {});
    r
  }

  /** The fresh-name case of `__defineGeneric`: a new Variable enters the table and its list. */
  function AddVariable(st: State, s: ScopeId, name: string, inImplicit: bool,
                       node: Option<Handle>, def: Option<Definition>): (r: State)
    requires Valid(st) && s < |st.scopes|
    requires inImplicit ==> st.scopes[s].implicit.Some?
    requires name !in Table(st.scopes[s], inImplicit)
    ensures Valid(r) && Grows(st, r) && Local(st, r) && r.refs == st.refs
    ensures r.vars == st.vars + [Extend(NewVariable(name, s), node, def)]
    ensures forall i :: 0 <= i < |st.scopes| && i != s ==> r.scopes[i] == st.scopes[i]
    ensures r.scopes[s] == WithTable(st.scopes[s], inImplicit,
                                     Table(st.scopes[s], inImplicit)[name := |st.vars|],
                                     VarList(st.scopes[s], inImplicit) + [|st.vars|])
  {
    var sc := st.scopes[s];
    var v := |st.vars|;
    var sc' := WithTable(sc, inImplicit, Table(sc, inImplicit)[name := v], VarList(sc, inImplicit) + [v]);
    var x := Extend(NewVariable(name, s), node, def);
    var r := st.(vars := st.vars + [x], scopes := st.scopes[s := sc']);
    AddVariableValid(st, s, name, inImplicit, x, r);
    r
  }

  /** The shape of the state after the fresh-name case of `__defineGeneric`. */
  ghost predicate Added(st: State, s: ScopeId, name: string, inImplicit: bool, x: Variable, r: State)
    requires s < |st.scopes|
    requires inImplicit ==> st.scopes[s].implicit.Some?
  {
    var sc := st.scopes[s]; var v := |st.vars|;
    r == st.(vars := st.vars + [x],
             scopes := st.scopes[s := WithTable(sc, inImplicit, Table(sc, inImplicit)[name := v], VarList(sc, inImplicit) + [v])])
  }

  lemma AddVariableValid(st: State, s: ScopeId, name: string, inImplicit: bool, x: Variable, r: State)
    requires Valid(st) && s < |st.scopes|
    requires inImplicit ==> st.scopes[s].implicit.Some?
    requires name !in Table(st.scopes[s], inImplicit)
    requires x.name == name && x.scope == s && x.references == []
    requires Added(st, s, name, inImplicit, x, r)
    ensures Valid(r) && Grows(st, r) && Local(st, r)
  {
    AddVariableOk(st, s, name, inImplicit, x, r);
    AddVariableGrows(st, s, name, inImplicit, x, r);
  }

  lemma AddVariableOk(st: State, s: ScopeId, name: string, inImplicit: bool, x: Variable, r: State)
    requires Valid(st) && s < |st.scopes|
    requires inImplicit ==> st.scopes[s].implicit.Some?
    requires name !in Table(st.scopes[s], inImplicit)
    requires x.name == name && x.scope == s && x.references == []
    requires Added(st, s, name, inImplicit, x, r)
    ensures Valid(r)
  {
    NewNameOk(st, s, name, inImplicit, x, r);
    CurrentOpenFrame(st, r);
    ValidFrame(st, r, {s}, {|st.vars|}, {});
  }

  lemma AddVariableGrows(st: State, s: ScopeId, name: string, inImplicit: bool, x: Variable, r: State)
    requires Valid(st) && s < |st.scopes|
    requires inImplicit ==> st.scopes[s].implicit.Some?
    requires name !in Table(st.scopes[s], inImplicit)
    requires Added(st, s, name, inImplicit, x, r)
    ensures Grows(st, r) && Local(st, r)
  {
    forall i | 0 <= i < |st.scopes| ensures ScopeGrows(st.scopes[i], r.scopes[i]) {
    }
  }

  function WithTable(sc: Scope, inImplicit: bool, names: map<string, VarId>, variables: seq<VarId>): Scope
    requires inImplicit ==> sc.implicit.Some?
  {
    if inImplicit then sc.(implicit := Some(sc.implicit.value.(names := names, variables := variables)))
    else sc.(names := names, variables := variables)
  }

  /** A fresh name bound to a new last Variable keeps a table consistent. */
  lemma NamesOkAdd(vars: seq<Variable>, x: Variable, id: ScopeId, names: map<string, VarId>, variables: seq<VarId>)
    requires NamesOk(vars, id, names, variables)
    requires x.name !in names && x.scope == id
    ensures NamesOk(vars + [x], id, names[x.name := |vars|], variables + [|vars|])
  {
    var v := |vars|;
    var t', l' := names[x.name := v], variables + [v];
    var r := vars + [x];
    assert NoDup(l') by {
      forall i, j | 0 <= i < j < |l'| ensures l'[i] != l'[j] {
        if j == |variables| { assert l'[i] in variables; } else { assert l'[i] == variables[i] && l'[j] == variables[j]; }
      }
    }
    forall k | k in t' ensures t'[k] < |r| && r[t'[k]].name == k && r[t'[k]].scope == id && t'[k] in l' {
      if k != x.name { assert t'[k] == names[k] && names[k] < v; }
    }
    forall w | w in l' ensures w < |r| && r[w].name in t' && t'[r[w].name] == w {
      if w != v { assert w in variables; assert r[w] == vars[w]; }
    }
  }

  lemma NewNameOk(st: State, s: ScopeId, name: string, inImplicit: bool, x: Variable, r: State)
    requires Valid(st) && s < |st.scopes|
    requires inImplicit ==> st.scopes[s].implicit.Some?
    requires name !in Table(st.scopes[s], inImplicit)
    requires x.name == name && x.scope == s
    requires Added(st, s, name, inImplicit, x, r)
    ensures ScopeOk(r.scopes, r.vars, |r.refs|, s)
  {
    var sc := st.scopes[s];
    var v := |st.vars|;
    assert ScopeOk(st.scopes, st.vars, |st.refs|, s);
    assert VarsFrame(st.vars, r.vars);
    if inImplicit {
      NamesOkFrame(st.vars, r.vars, s, sc.names, sc.variables);
    } else if sc.implicit.Some? {
      NamesOkFrame(st.vars, r.vars, s, sc.implicit.value.names, sc.implicit.value.variables);
    }
    NamesOkAdd(st.vars, x, s, Table(sc, inImplicit), VarList(sc, inImplicit));
  }

  /** The test `node && node.type === Syntax.Identifier` of `__define`, `__defineImplicit` and `__referencing`. */
  predicate IsIdent(node: Option<Handle>)
  {
    node.Some? && node.value.Ident?
  }

  /**
   * `__define`: an Identifier is bound in `set` (merging with an existing
   * binding of its name); a missing or non-Identifier node defines nothing.
   */
  function Define(st: State, s: ScopeId, node: Option<Handle>, def: Definition): (r: State)
    requires Valid(st) && s < |st.scopes|
    ensures Valid(r) && Grows(st, r) && Local(st, r) && r.refs == st.refs
    ensures !IsIdent(node) ==> r == st
    ensures IsIdent(node) ==> Defined(st, r, s, node.value.name, false, node, Some(def))
  {
    if IsIdent(node) then DefineGeneric(st, s, node.value.name, false, node, Some(def)) else st
  }

  /** `__defineArguments`: the implicit `arguments` binding, without definition, and its taint. */
  function DefineArguments(st: State, s: ScopeId): (r: State)
    requires Valid(st) && s < |st.scopes|
    ensures Valid(r) && Grows(st, r) && Local(st, r) && r.refs == st.refs
    ensures "arguments" in r.scopes[s].names
    ensures r.scopes[s].taints == st.scopes[s].taints + {"arguments"}
    ensures var v := r.scopes[s].names["arguments"];
      && v < |r.vars| && r.vars[v].name == "arguments" && r.vars[v].scope == s
      && ("arguments" in st.scopes[s].names ==> r.scopes[s].variables == st.scopes[s].variables && r.vars == st.vars)
      && ("arguments" !in st.scopes[s].names ==>
            r.scopes[s].variables == st.scopes[s].variables + [v] && r.vars == st.vars + [NewVariable("arguments", s)])
    ensures forall i :: 0 <= i < |st.scopes| && i != s ==> r.scopes[i] == st.scopes[i]
    ensures r.scopes[s] == st.scopes[s].(names := st.scopes[s].names["arguments" := r.scopes[s].names["arguments"]],
                                         variables := r.scopes[s].variables, taints := r.scopes[s].taints)
  {
    var m := DefineGeneric(st, s, "arguments", false, None, None);
    var r := Taint(m, s, "arguments");
    var t := st.scopes[s].names;
    assert m.scopes[s] == st.scopes[s].(names := t["arguments" := m.scopes[s].names["arguments"]], variables := m.scopes[s].variables) by {
      if "arguments" in t {
        assert t["arguments" := t["arguments"]] == t;
      }
    }
    assert Extend(NewVariable("arguments", s), None, None) == NewVariable("arguments", s);
    assert "arguments" in st.scopes[s].names ==> m.vars == st.vars by {
      if "arguments" in st.scopes[s].names {
        var v := st.scopes[s].names["arguments"];
        assert Extend(st.vars[v], None, None) == st.vars[v];
      }
    }
    GrowsTrans(st, m, r);
    r
  }

  /** The scope's `taints` gains `name`; nothing else changes. */
  function Taint(st: State, s: ScopeId, name: string): (r: State)
    requires Valid(st) && s < |st.scopes|
    ensures Valid(r) && Grows(st, r) && Local(st, r) && r.refs == st.refs && r.vars == st.vars
    ensures r.scopes == st.scopes[s := st.scopes[s].(taints := st.scopes[s].taints + {name})]
  {
    var sc := st.scopes[s];
    var r := st.(scopes := st.scopes[s := sc.(taints := sc.taints + {name})]);
    TaintOk(st, s, name, r);
    r
  }

  lemma TaintOk(st: State, s: ScopeId, name: string, r: State)
    requires Valid(st) && s < |st.scopes|
    requires r == st.(scopes := st.scopes[s := st.scopes[s].(taints := st.scopes[s].taints + {name})])
    ensures Valid(r)
  {
    assert ScopeOk(st.scopes, st.vars, |st.refs|, s);
    CurrentOpenFrame(st, r);
    ValidFrame(st, r, {}, {}, {});
  }

  /**
   * `__defineImplicit`: like `__define`, but into the global scope's
   * `implicit` table, leaving `set` and `variables` alone.
   */
  function DefineImplicit(st: State, s: ScopeId, node: Option<Handle>, def: Definition): (r: State)
    requires Valid(st) && s < |st.scopes| && st.scopes[s].implicit.Some?
    ensures Valid(r) && Grows(st, r) && Local(st, r) && r.refs == st.refs
    ensures !IsIdent(node) ==> r == st
    ensures IsIdent(node) ==> Defined(st, r, s, node.value.name, true, node, Some(def))
  {
    if IsIdent(node) then DefineGeneric(st, s, node.value.name, true, node, Some(def)) else st
  }

  // ---------------------------------------------------------------------
  // References (lib/scope.js __referencing; the Reference constructor)

  /**
   * A new Reference: unresolved and untainted, READ unless a mode is given,
   * and with `writeExpr` and `partial` only for a writing mode.
   */
  function NewReference(id: Handle, s: ScopeId, assign: Option<AccessFlag>, writeExpr: Option<Handle>,
                        maybeImplicitGlobal: Option<ImplicitInfo>, partial: bool): (r: Reference)
    ensures r.identifier == id && r.from == s && !r.tainted && r.resolved.None?
    ensures assign.None? ==> r.flag == Read
    ensures assign.Some? ==> r.flag == assign.value
    ensures r.flag.IsWrite() ==> r.writeExpr == writeExpr && r.partial == partial
    ensures !r.flag.IsWrite() ==> r.writeExpr.None? && !r.partial
    ensures r.maybeImplicitGlobal == maybeImplicitGlobal
  {
    var flag := if assign.Some? then assign.value else Read;
    Reference(id, s, false, None, flag,
              if flag.IsWrite() then writeExpr else None,
              flag.IsWrite() && partial,
              maybeImplicitGlobal)
  }

  /**
   * `__referencing`: an Identifier gets one new Reference, appended to the
   * scope's `references` and to its pending `__left`; any other node, or
   * none, changes nothing.
   */
  function Referencing(st: State, s: ScopeId, node: Option<Handle>, assign: Option<AccessFlag>,
                       writeExpr: Option<Handle>, maybeImplicitGlobal: Option<ImplicitInfo>, partial: bool): (r: State)
    requires Valid(st) && s < |st.scopes| && st.scopes[s].left.Some?
    ensures Valid(r) && Grows(st, r) && Local(st, r) && r.vars == st.vars
    ensures !IsIdent(node) ==> r == st
    ensures IsIdent(node) ==>
      var x := |st.refs|;
      var sc := st.scopes[s];
      && r.refs == st.refs + [NewReference(node.value, s, assign, writeExpr, maybeImplicitGlobal, partial)]
      && r.scopes == st.scopes[s := sc.(references := sc.references + [x], left := Some(sc.left.value + [x]))]
  {
    if !IsIdent(node) then st
    else
      var x := |st.refs|;
      var sc := st.scopes[s];
      var r := st.(refs := st.refs + [NewReference(node.value, s, assign, writeExpr, maybeImplicitGlobal, partial)],
                   scopes := st.scopes[s := sc.(references := sc.references + [x], left := Some(sc.left.value + [x]))]);
      ReferencingValid(st, s, r);
      r
  }

  lemma ReferencingValid(st: State, s: ScopeId, r: State)
    requires Valid(st) && s < |st.scopes| && st.scopes[s].left.Some?
    requires |r.refs| == |st.refs| + 1 && r.refs[..|st.refs|] == st.refs && r.refs[|st.refs|].from == s
    requires r.refs[|st.refs|].identifier.Ident? && r.refs[|st.refs|].resolved.None?
    requires var x := |st.refs|; var sc := st.scopes[s];
      r == st.(refs := r.refs, scopes := st.scopes[s := sc.(references := sc.references + [x], left := Some(sc.left.value + [x]))])
    ensures Valid(r) && Grows(st, r) && Local(st, r)
  {
    ReferencingOk(st, s, r);
    ReferencingGrows(st, s, r);
  }

  lemma ReferencingOk(st: State, s: ScopeId, r: State)
    requires Valid(st) && s < |st.scopes| && st.scopes[s].left.Some?
    requires |r.refs| == |st.refs| + 1 && r.refs[..|st.refs|] == st.refs && r.refs[|st.refs|].from == s
    requires r.refs[|st.refs|].identifier.Ident? && r.refs[|st.refs|].resolved.None?
    requires var x := |st.refs|; var sc := st.scopes[s];
      r == st.(refs := r.refs, scopes := st.scopes[s := sc.(references := sc.references + [x], left := Some(sc.left.value + [x]))])
    ensures Valid(r)
  {
    assert ScopeOk(st.scopes, st.vars, |st.refs|, s);
    CurrentOpenFrame(st, r);
    forall i | 0 <= i < |st.refs| ensures RefSame(st.refs[i], r.refs[i]) {
      assert r.refs[i] == r.refs[..|st.refs|][i];
    }
    ValidFrame(st, r, {}, {}, {|st.refs|});
  }

  lemma ReferencingGrows(st: State, s: ScopeId, r: State)
    requires Valid(st) && s < |st.scopes| && st.scopes[s].left.Some?
    requires |r.refs| == |st.refs| + 1 && r.refs[..|st.refs|] == st.refs && r.refs[|st.refs|].from == s
    requires r.refs[|st.refs|].identifier.Ident? && r.refs[|st.refs|].resolved.None?
    requires var x := |st.refs|; var sc := st.scopes[s];
      r == st.(refs := r.refs, scopes := st.scopes[s := sc.(references := sc.references + [x], left := Some(sc.left.value + [x]))])
    ensures Grows(st, r)
  {
    forall i | 0 <= i < |st.refs| ensures RefGrows(st.refs[i], r.refs[i]) {
      assert r.refs[i] == r.refs[..|st.refs|][i];
    }
  }

  /**
   * Replacing one scope by a version with the same tables, lists inside the
   * arenas and no fewer open scopes keeps the invariant.
   */
  lemma ScopeListsOk(st: State, i: ScopeId, sc: Scope)
    requires Valid(st) && i < |st.scopes|
    requires SameTables(st.scopes[i], sc) && ListsBelow(sc, |st.scopes|, |st.refs|)
    requires st.scopes[i].left.Some? ==> sc.left.Some?
    ensures Valid(st.(scopes := st.scopes[i := sc]))
  {
    var r := st.(scopes := st.scopes[i := sc]);
    CurrentOpenFrame(st, r);
    ValidFrame(st, r, {}, {}, {});
  }
}
