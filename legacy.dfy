/**
 * The scope records of the legacy engine (escope.js): `Reference`,
 * `Variable` and `Scope` with its `__define`, `__referencing`,
 * `__detectEval`, `__resolve`, `__delegateToUpperScope` and `__close`.
 *
 * As in the newer engine the records live in arenas (sequences indexed by
 * id) and links are ids.  The operations are functions on a `State`
 * value because the analysis drives them from the callbacks of `traverse`,
 * which take and return that value.  A thrown TypeError or failed `assert`
 * is a `Failure`.
 */
module Legacy {
  import opened Base
  import opened Ast
  import Scopes

  type Handle = Scopes.Handle
  type ScopeId = nat
  type VarId = nat
  type RefId = nat

  /** Scope#type: 'global', 'function', 'catch' or 'with'. */
  datatype Kind = GlobalKind | FunctionKind | CatchKind | WithKind

  /** An occurrence of a name and the variable it resolved to, if any. */
  datatype Ref = Ref(identifier: Handle, from: ScopeId, tainted: bool, resolved: Option<VarId>)

  datatype Variable = Variable(name: string, identifiers: seq<Handle>, references: seq<RefId>,
                     tainted: bool, stack: bool, scope: ScopeId)

  /**
   * A scope: `names` is `set`, `left` is null once the scope is closed, and
   * `taints` holds the names mapped to true.
   */
  datatype Scope = Scope(kind: Kind, names: map<string, VarId>, dynamic: bool, block: Handle,
                         through: seq<RefId>, variables: seq<VarId>, references: seq<RefId>,
                         taints: set<string>, left: Option<seq<RefId>>, variableScope: ScopeId,
                         functionExpressionScope: bool, directCallToEvalScope: bool,
                         upper: Option<ScopeId>)

  /** The module-level `scopes` list and `scope` variable, with the records they reach. */
  datatype State = State(scopes: seq<Scope>, vars: seq<Variable>, refs: seq<Ref>, current: Option<ScopeId>)

  /** Why an analysis or a query raised. */
  datatype Fault =
    | NoScope        // a property of a null scope or a closed scope's `left` was used: TypeError
    | NoUpper        // `assert(this.upper, 'upper should be here')`
    | Unreachable    // `resolve` found no reference for the identifier
    | NotClosed      // `assert(this.__isClosed(), ...)`
    | NotIdentifier  // `assert(ident.type === Syntax.Identifier, ...)`
    | NoArguments    // `assert(variable, 'always have arguments variable')`
    | NoKeys         // `VisitorKeys[node.type]` is undefined and its `length` is read
    | LeftOpen       // `assert(scope === null)` after the walk

  function Empty(): State
  {
    State([], [], [], None)
  }

  // ---------------------------------------------------------------------
  // The invariant: every stored id points into its arena, and the scope
  // chain only goes to earlier scopes

  ghost predicate ScopeOk(sc: Scope, i: nat, nv: nat, nr: nat)
  {
    (sc.upper.Some? ==> sc.upper.value < i) && sc.variableScope <= i &&
    (forall n :: n in sc.names ==> sc.names[n] < nv) &&
    (sc.left.Some? ==> Below(sc.left.value, nr)) && Below(sc.references, nr)
  }

  ghost predicate ScopesOk(scopes: seq<Scope>, nv: nat, nr: nat)
  {
    forall i :: 0 <= i < |scopes| ==> ScopeOk(scopes[i], i, nv, nr)
  }

  ghost predicate RefsOk(refs: seq<Ref>, ns: nat, nv: nat)
  {
    forall j :: 0 <= j < |refs| ==> refs[j].from < ns && (refs[j].resolved.Some? ==> refs[j].resolved.value < nv)
  }

  ghost predicate VarsOk(vars: seq<Variable>, ns: nat)
  {
    forall j :: 0 <= j < |vars| ==> vars[j].scope < ns
  }

  ghost predicate Valid(st: State)
  {
    (st.current.Some? ==> st.current.value < |st.scopes|) &&
    ScopesOk(st.scopes, |st.vars|, |st.refs|) &&
    RefsOk(st.refs, |st.scopes|, |st.vars|) &&
    VarsOk(st.vars, |st.scopes|)
  }

  /** Every scope's `upper` is an earlier scope: the chains are finite. */
  ghost predicate Ordered(scopes: seq<Scope>)
  {
    forall i :: 0 <= i < |scopes| ==> scopes[i].upper.Some? ==> scopes[i].upper.value < i
  }

  lemma ValidOrdered(st: State)
    requires Valid(st)
    ensures Ordered(st.scopes)
  {
    forall i | 0 <= i < |st.scopes| && st.scopes[i].upper.Some?
      ensures st.scopes[i].upper.value < i
    {
      assert ScopeOk(st.scopes[i], i, |st.vars|, |st.refs|);
    }
  }

  lemma ScopeOkGrow(sc: Scope, i: nat, nv: nat, nr: nat, nv': nat, nr': nat)
    requires ScopeOk(sc, i, nv, nr) && nv <= nv' && nr <= nr'
    ensures ScopeOk(sc, i, nv', nr')
  {
  }

  lemma ScopesGrow(scopes: seq<Scope>, nv: nat, nr: nat, nv': nat, nr': nat)
    requires ScopesOk(scopes, nv, nr) && nv <= nv' && nr <= nr'
    ensures ScopesOk(scopes, nv', nr')
  {
    forall i | 0 <= i < |scopes| ensures ScopeOk(scopes[i], i, nv', nr') {
      ScopeOkGrow(scopes[i], i, nv, nr, nv', nr');
    }
  }

  lemma ScopesSet(scopes: seq<Scope>, i: nat, sc: Scope, nv: nat, nr: nat)
    requires ScopesOk(scopes, nv, nr) && i < |scopes| && ScopeOk(sc, i, nv, nr)
    ensures ScopesOk(scopes[i := sc], nv, nr)
  {
    var t := scopes[i := sc];
    forall j | 0 <= j < |t| ensures ScopeOk(t[j], j, nv, nr) {
      if j != i { assert t[j] == scopes[j]; }
    }
  }

  lemma ScopesPush(scopes: seq<Scope>, sc: Scope, nv: nat, nr: nat)
    requires ScopesOk(scopes, nv, nr) && ScopeOk(sc, |scopes|, nv, nr)
    ensures ScopesOk(scopes + [sc], nv, nr)
  {
    forall j | 0 <= j < |scopes| + 1 ensures ScopeOk((scopes + [sc])[j], j, nv, nr) {
      if j < |scopes| { assert (scopes + [sc])[j] == scopes[j]; }
    }
  }

  lemma RefsGrow(refs: seq<Ref>, ns: nat, nv: nat, ns': nat, nv': nat)
    requires RefsOk(refs, ns, nv) && ns <= ns' && nv <= nv'
    ensures RefsOk(refs, ns', nv')
  {
  }

  lemma VarsGrow(vars: seq<Variable>, ns: nat, ns': nat)
    requires VarsOk(vars, ns) && ns <= ns'
    ensures VarsOk(vars, ns')
  {
  }

  // ---------------------------------------------------------------------
  // What an operation keeps

  /**
   * `b` is a later version of scope `a`: the fields only the constructor
   * sets are the same, and names once bound stay bound.
   */
  predicate Evolves(a: Scope, b: Scope)
  {
    a.kind == b.kind && a.block == b.block && a.upper == b.upper && a.variableScope == b.variableScope &&
    a.functionExpressionScope == b.functionExpressionScope && a.names.Keys <= b.names.Keys
  }

  /** Same scopes up to the fields operations change, and arenas that only grow. */
  predicate Kept(st: State, r: State)
  {
    |st.scopes| == |r.scopes| && |st.vars| <= |r.vars| && |st.refs| <= |r.refs| &&
    forall i :: 0 <= i < |st.scopes| ==> Evolves(st.scopes[i], r.scopes[i])
  }

  lemma KeptTrans(a: State, b: State, c: State)
    requires Kept(a, b) && Kept(b, c)
    ensures Kept(a, c)
  {
    forall i | 0 <= i < |a.scopes| ensures Evolves(a.scopes[i], c.scopes[i]) {
      assert Evolves(b.scopes[i], c.scopes[i]);
    }
  }

  // ---------------------------------------------------------------------
  // __define and __referencing

  /** The test `node && node.type === Syntax.Identifier`. */
  predicate IsIdent(node: Option<Handle>)
  {
    node.Some? && node.value.Ident?
  }

  /** The handle of an optional node. */
  function HandleOpt(node: Option<Node>): (h: Option<Handle>)
    ensures IsIdent(h) <==> node.Some? && node.value.Identifier?
    ensures IsIdent(h) ==> h.value.nid == node.value.nid && h.value.name == node.value.name
  {
    if node.Some? then Some(Scopes.HandleOf(node.value)) else None
  }

  /**
   * `__define(node)` on scope `s`: an Identifier adds itself to the
   * variable of its name in `set`, creating the variable (static so far,
   * untainted, owned by `s`) when the name is new.
   */
  function Define(st: State, s: ScopeId, node: Option<Handle>): (r: State)
    requires Valid(st) && s < |st.scopes|
    ensures Valid(r) && Kept(st, r) && r.refs == st.refs && r.current == st.current
    ensures !IsIdent(node) ==> r == st
    ensures IsIdent(node) ==> Bound(st, r, s, node.value)
  {
    if !IsIdent(node) then st
    else
      var name := node.value.name;
      var sc := st.scopes[s];
      if name in sc.names then
        var v := sc.names[name];
        assert ScopeOk(sc, s, |st.vars|, |st.refs|);
        var r := st.(vars := st.vars[v := st.vars[v].(identifiers := st.vars[v].identifiers + [node.value])]);
        assert Kept(st, r);
        r
      else
        var v := |st.vars|;
        var sc' := sc.(names := sc.names[name := v], variables := sc.variables + [v]);
        var r := st.(vars := st.vars + [Variable(name, [node.value], [], false, true, s)],
                     scopes := st.scopes[s := sc']);
        ScopesGrow(st.scopes, |st.vars|, |st.refs|, |r.vars|, |st.refs|);
        assert ScopeOk(sc, s, |st.vars|, |st.refs|);
        ScopesSet(st.scopes, s, sc', |r.vars|, |r.refs|);
        assert Kept(st, r);
        r
  }

  /**
   * What `__define` promises: the name is bound in `s` to a variable of that
   * name whose identifiers gained the node; a new variable is fresh and
   * belongs to `s`, an old one keeps its references; every other binding of
   * every scope is unchanged.
   */
  ghost predicate Bound(st: State, r: State, s: ScopeId, id: Handle)
    requires Valid(st) && Valid(r) && s < |st.scopes| && |r.scopes| == |st.scopes| && id.Ident?
  {
    var name := id.name;
    name in r.scopes[s].names &&
    var v := r.scopes[s].names[name];
    (name in st.scopes[s].names ==>
       v == st.scopes[s].names[name] && r.vars[v] == st.vars[v].(identifiers := st.vars[v].identifiers + [id])) &&
    (name !in st.scopes[s].names ==>
       v == |st.vars| && r.vars == st.vars + [Variable(name, [id], [], false, true, s)] &&
       r.scopes[s].variables == st.scopes[s].variables + [v]) &&
    (forall i, n :: 0 <= i < |st.scopes| && n in st.scopes[i].names && (i != s || n != name) ==>
       n in r.scopes[i].names && r.scopes[i].names[n] == st.scopes[i].names[n])
  }

  /** `new Reference(node, scope)`: from `s`, untainted, unresolved. */
  function NewRef(id: Handle, s: ScopeId): Ref
  {
    Ref(id, s, false, None)
  }

  /**
   * `__referencing(node)` on scope `s`: an Identifier gets a new reference,
   * appended to the scope's `references` and `left`.  A closed scope has no
   * `left` to push to.
   */
  function Referencing(st: State, s: ScopeId, node: Option<Handle>): (r: Result<State, Fault>)
    requires Valid(st) && s < |st.scopes|
    ensures r.Success? ==> Valid(r.value) && Kept(st, r.value) && r.value.vars == st.vars && r.value.current == st.current
    ensures !IsIdent(node) ==> r == Success(st)
    ensures IsIdent(node) && st.scopes[s].left.None? ==> r == Failure(NoScope)
    ensures IsIdent(node) && st.scopes[s].left.Some? ==> (r.Success? &&
      var x := |st.refs|;
      r.value.refs == st.refs + [NewRef(node.value, s)] &&
      r.value.scopes == st.scopes[s := st.scopes[s].(references := st.scopes[s].references + [x],
                                                      left := Some(st.scopes[s].left.value + [x]))])
  {
    if !IsIdent(node) then Success(st)
    else
      var sc := st.scopes[s];
      if sc.left.None? then Failure(NoScope)
      else
        var x := |st.refs|;
        var sc' := sc.(references := sc.references + [x], left := Some(sc.left.value + [x]));
        var r := st.(refs := st.refs + [NewRef(node.value, s)], scopes := st.scopes[s := sc']);
        ScopesGrow(st.scopes, |st.vars|, |st.refs|, |st.vars|, |r.refs|);
        assert ScopeOk(sc, s, |st.vars|, |st.refs|);
        ScopesSet(st.scopes, s, sc', |r.vars|, |r.refs|);
        assert Kept(st, r);
        Success(r)
  }

  // ---------------------------------------------------------------------
  // __detectEval

  /** Scope `i` is on the chain of `upper` links that starts at `c`. */
  ghost predicate OnChain(scopes: seq<Scope>, c: ScopeId, i: ScopeId)
    requires Ordered(scopes) && c < |scopes|
    decreases c
  {
    i == c || (scopes[c].upper.Some? && OnChain(scopes, scopes[c].upper.value, i))
  }

  /** The do/while loop of `__detectEval`: every scope from `c` up the chain becomes dynamic. */
  function MarkDynamic(scopes: seq<Scope>, c: ScopeId): (r: seq<Scope>)
    requires Ordered(scopes) && c < |scopes|
    ensures |r| == |scopes| && Ordered(r)
    ensures forall i :: 0 <= i < |scopes| ==> r[i] == scopes[i].(dynamic := r[i].dynamic)
    ensures forall i :: 0 <= i < |scopes| ==> (r[i].dynamic <==> scopes[i].dynamic || OnChain(scopes, c, i))
    decreases c
  {
    var marked := scopes[c := scopes[c].(dynamic := true)];
    if scopes[c].upper.None? then marked
    else
      assert forall i :: 0 <= i < |scopes| ==> marked[i].upper == scopes[i].upper;
      ChainSame(scopes, marked, scopes[c].upper.value);
      MarkDynamic(marked, scopes[c].upper.value)
  }

  /** `__detectEval` on scope `s`: it is a direct-eval scope, and it and all its ancestors are dynamic. */
  function DetectEval(st: State, s: ScopeId): (r: State)
    requires Valid(st) && s < |st.scopes|
    ensures Valid(r) && Kept(st, r) && r.vars == st.vars && r.refs == st.refs && r.current == st.current
    ensures r.scopes[s].directCallToEvalScope
    ensures forall i :: 0 <= i < |st.scopes| ==>
      (r.scopes[i].dynamic <==> st.scopes[i].dynamic || OnChain(st.scopes, s, i)) &&
      (i != s ==> r.scopes[i].directCallToEvalScope == st.scopes[i].directCallToEvalScope)
  {
    ValidOrdered(st);
    var scopes := st.scopes[s := st.scopes[s].(directCallToEvalScope := true)];
    assert Ordered(scopes);
    var marked := MarkDynamic(scopes, s);
    ChainSame(st.scopes, scopes, s);
    var r := st.(scopes := marked);
    forall i | 0 <= i < |r.scopes| ensures ScopeOk(r.scopes[i], i, |r.vars|, |r.refs|) {
      assert ScopeOk(st.scopes[i], i, |st.vars|, |st.refs|);
    }
    assert Kept(st, r);
    r
  }

  /** Chains depend on the `upper` links only. */
  lemma ChainSame(a: seq<Scope>, b: seq<Scope>, c: ScopeId)
    requires Ordered(a) && Ordered(b) && |a| == |b| && c < |a|
    requires forall i :: 0 <= i < |a| ==> a[i].upper == b[i].upper
    ensures forall i :: OnChain(a, c, i) <==> OnChain(b, c, i)
    decreases c
  {
    if a[c].upper.Some? {
      ChainSame(a, b, a[c].upper.value);
    }
  }

  /** A chain only goes down: nothing above its start is on it. */
  lemma ChainBelow(scopes: seq<Scope>, c: ScopeId)
    requires Ordered(scopes) && c < |scopes|
    ensures forall i: nat :: OnChain(scopes, c, i) ==> i <= c
    decreases c
  {
    if scopes[c].upper.Some? {
      ChainBelow(scopes, scopes[c].upper.value);
    }
  }

  // ---------------------------------------------------------------------
  // __resolve and __delegateToUpperScope

  /**
   * `__resolve(ref)` on scope `s`: when `set` has the reference's name, the
   * variable gains the reference, stays a stack variable only if the
   * reference comes from the same variable scope, is tainted by a tainted
   * reference (the scope then records the name in `taints`), and the
   * reference resolves to it.  None means the name is not in `set`.
   */
  function Resolve(st: State, s: ScopeId, x: RefId): (r: Option<State>)
    requires Valid(st) && s < |st.scopes| && x < |st.refs|
    ensures r.None? <==> st.refs[x].identifier.Name() !in st.scopes[s].names
    ensures r.Some? ==> Valid(r.value) && Kept(st, r.value) && r.value.current == st.current
    ensures r.Some? ==> (
      var v := st.scopes[s].names[st.refs[x].identifier.Name()];
      r.value.refs == st.refs[x := st.refs[x].(resolved := Some(v))] &&
      r.value.vars[v].references == st.vars[v].references + [x] &&
      (r.value.vars[v].tainted <==> st.vars[v].tainted || st.refs[x].tainted) &&
      (r.value.vars[v].stack <==>
         st.vars[v].stack && st.scopes[st.refs[x].from].variableScope == st.scopes[s].variableScope))
    ensures r.Some? ==> r.value.scopes == st.scopes[s := st.scopes[s].(taints := r.value.scopes[s].taints)]
  {
    var ref := st.refs[x];
    var sc := st.scopes[s];
    var name := ref.identifier.Name();
    if name !in sc.names then None
    else
      var v := sc.names[name];
      assert ScopeOk(sc, s, |st.vars|, |st.refs|);
      var old_ := st.vars[v];
      var stack := old_.stack && st.scopes[ref.from].variableScope == sc.variableScope;
      var nv := old_.(references := old_.references + [x], stack := stack, tainted := old_.tainted || ref.tainted);
      var sc' := if ref.tainted then sc.(taints := sc.taints + {old_.name}) else sc;
      var r := st.(vars := st.vars[v := nv], scopes := st.scopes[s := sc'],
                   refs := st.refs[x := ref.(resolved := Some(v))]);
      ScopesSet(st.scopes, s, sc', |st.vars|, |st.refs|);
      assert Kept(st, r);
      Some(r)
  }

  /**
   * `__delegateToUpperScope(ref)` on scope `s`: the reference moves to the
   * upper scope's `left` and into this scope's `through`.  A scope without
   * an upper scope fails the assertion.
   */
  function Delegate(st: State, s: ScopeId, x: RefId): (r: Result<State, Fault>)
    requires Valid(st) && s < |st.scopes| && x < |st.refs|
    ensures st.scopes[s].upper.None? ==> r == Failure(NoUpper)
    ensures r.Success? ==> Valid(r.value) && Kept(st, r.value)
    ensures r.Success? ==> r.value.vars == st.vars && r.value.refs == st.refs && r.value.current == st.current
    ensures r.Success? ==> (st.scopes[s].upper.Some? &&
      var u := st.scopes[s].upper.value;
      st.scopes[u].left.Some? &&
      r.value.scopes == st.scopes[u := st.scopes[u].(left := Some(st.scopes[u].left.value + [x]))]
                                 [s := st.scopes[s].(through := st.scopes[s].through + [x])])
    ensures st.scopes[s].upper.Some? && st.scopes[st.scopes[s].upper.value].left.Some? ==> r.Success?
  {
    var sc := st.scopes[s];
    if sc.upper.None? then Failure(NoUpper)
    else
      var u := sc.upper.value;
      assert ScopeOk(sc, s, |st.vars|, |st.refs|);
      var up := st.scopes[u];
      if up.left.None? then Failure(NoScope)
      else
        var up' := up.(left := Some(up.left.value + [x]));
        var sc' := sc.(through := sc.through + [x]);
        assert ScopeOk(up, u, |st.vars|, |st.refs|);
        ScopesSet(st.scopes, u, up', |st.vars|, |st.refs|);
        ScopesSet(st.scopes[u := up'], s, sc', |st.vars|, |st.refs|);
        var r := st.(scopes := st.scopes[u := up'][s := sc']);
        assert Kept(st, r);
        Success(r)
  }

  // ---------------------------------------------------------------------
  // __close

  /** The static regime: each reference resolves here or is delegated up. */
  function StaticClose(st: State, s: ScopeId, xs: seq<RefId>): (r: Result<State, Fault>)
    requires Valid(st) && s < |st.scopes| && Below(xs, |st.refs|)
    ensures r.Success? ==> Valid(r.value) && Kept(st, r.value) && r.value.current == st.current
    decreases |xs|
  {
    if xs == [] then Success(st)
    else
      var st1 :- match Resolve(st, s, xs[0])
                 case Some(t) => Success(t)
                 case None => Delegate(st, s, xs[0]);
      var r := StaticClose(st1, s, xs[1..]);
      if r.Success? then KeptTrans(st, st1, r.value); r else r
  }

  /** The `with` regime: each reference is tainted and delegated up. */
  function WithClose(st: State, s: ScopeId, xs: seq<RefId>): (r: Result<State, Fault>)
    requires Valid(st) && s < |st.scopes| && Below(xs, |st.refs|)
    ensures r.Success? ==> Valid(r.value) && Kept(st, r.value) && r.value.current == st.current
    decreases |xs|
  {
    if xs == [] then Success(st)
    else
      var x := xs[0];
      var t := st.(refs := st.refs[x := st.refs[x].(tainted := true)]);
      assert Kept(st, t);
      var st1 :- Delegate(t, s, x);
      KeptTrans(st, t, st1);
      var r := WithClose(st1, s, xs[1..]);
      if r.Success? then KeptTrans(st, st1, r.value); r else r
  }

  /** The do/while loop of the dynamic regime: `through` of every scope from `c` up gains `x`. */
  function PushThrough(scopes: seq<Scope>, c: ScopeId, x: RefId): (r: seq<Scope>)
    requires Ordered(scopes) && c < |scopes|
    ensures |r| == |scopes| && Ordered(r)
    ensures forall i :: 0 <= i < |scopes| ==> r[i] == scopes[i].(through := r[i].through)
    ensures forall i :: 0 <= i < |scopes| ==>
      r[i].through == scopes[i].through + (if OnChain(scopes, c, i) then [x] else [])
    decreases c
  {
    var pushed := scopes[c := scopes[c].(through := scopes[c].through + [x])];
    if scopes[c].upper.None? then pushed
    else
      assert forall i :: 0 <= i < |scopes| ==> pushed[i].upper == scopes[i].upper;
      ChainSame(scopes, pushed, scopes[c].upper.value);
      ChainBelow(scopes, scopes[c].upper.value);
      PushThrough(pushed, scopes[c].upper.value, x)
  }

  /** The dynamic regime of a global scope or a function with eval: every reference goes through the whole chain. */
  function DynamicClose(st: State, s: ScopeId, xs: seq<RefId>): (r: State)
    requires Valid(st) && s < |st.scopes|
    ensures Valid(r) && Kept(st, r) && r.vars == st.vars && r.refs == st.refs && r.current == st.current
    decreases |xs|
  {
    if xs == [] then st
    else
      ValidOrdered(st);
      var t := st.(scopes := PushThrough(st.scopes, s, xs[0]));
      forall i | 0 <= i < |t.scopes| ensures ScopeOk(t.scopes[i], i, |t.vars|, |t.refs|) {
        assert ScopeOk(st.scopes[i], i, |st.vars|, |st.refs|);
      }
      assert Kept(st, t);
      var r := DynamicClose(t, s, xs[1..]);
      KeptTrans(st, t, r);
      r
  }

  // ---------------------------------------------------------------------
  // What each regime does to the pending references

  /** Scope `s` binds the name of reference `y`. */
  predicate Binds(st: State, s: ScopeId, y: RefId)
    requires s < |st.scopes| && y < |st.refs|
  {
    st.refs[y].identifier.Name() in st.scopes[s].names
  }

  /** The references of `xs` whose names `s` does not bind, in order: what the static regime delegates. */
  function Unbound(st: State, s: ScopeId, xs: seq<RefId>): (r: seq<RefId>)
    requires s < |st.scopes| && Below(xs, |st.refs|)
    ensures Below(r, |st.refs|) && |r| <= |xs|
    decreases |xs|
  {
    if xs == [] then []
    else (if Binds(st, s, xs[0]) then [] else [xs[0]]) + Unbound(st, s, xs[1..])
  }

  /** `Unbound` reads only the names of `s` and the identifiers of the references. */
  lemma {:induction false} UnboundSame(a: State, b: State, s: ScopeId, xs: seq<RefId>)
    requires s < |a.scopes| && s < |b.scopes| && |a.refs| == |b.refs| && Below(xs, |a.refs|)
    requires a.scopes[s].names == b.scopes[s].names
    requires forall y :: 0 <= y < |a.refs| ==> a.refs[y].identifier == b.refs[y].identifier
    ensures Unbound(a, s, xs) == Unbound(b, s, xs)
    decreases |xs|
  {
    if xs != [] {
      UnboundSame(a, b, s, xs[1..]);
    }
  }

  /** One step of the static regime: `__resolve`, or else `__delegateToUpperScope`. */
  function StaticStep(st: State, s: ScopeId, x: RefId): (r: Result<State, Fault>)
    requires Valid(st) && s < |st.scopes| && x < |st.refs|
    ensures r.Success? ==> Valid(r.value) && Kept(st, r.value) && |r.value.refs| == |st.refs|
    ensures r.Success? ==> r.value.scopes[s].names == st.scopes[s].names && r.value.scopes[s].upper == st.scopes[s].upper
    ensures r.Success? ==> forall y :: 0 <= y < |st.refs| ==> r.value.refs[y].identifier == st.refs[y].identifier
    ensures Binds(st, s, x) ==> r.Success? && r.value.scopes == st.scopes[s := st.scopes[s].(taints := r.value.scopes[s].taints)]
    ensures !Binds(st, s, x) ==> r == Delegate(st, s, x)
  {
    match Resolve(st, s, x)
    case Some(t) => Success(t)
    case None => Delegate(st, s, x)
  }

  lemma StaticCloseIs(st: State, s: ScopeId, xs: seq<RefId>)
    requires Valid(st) && s < |st.scopes| && Below(xs, |st.refs|) && xs != []
    ensures var d := StaticStep(st, s, xs[0]);
      StaticClose(st, s, xs) == if d.Failure? then Failure(d.error) else StaticClose(d.value, s, xs[1..])
  {
  }

  /** The static regime fails exactly when a pending name is unbound and there is no open upper scope. */
  lemma {:induction false} StaticCloseFails(st: State, s: ScopeId, xs: seq<RefId>)
    requires Valid(st) && s < |st.scopes| && Below(xs, |st.refs|)
    ensures var sc := st.scopes[s];
      StaticClose(st, s, xs).Success? <==>
        Unbound(st, s, xs) == [] || (sc.upper.Some? && st.scopes[sc.upper.value].left.Some?)
    decreases |xs|
  {
    var sc := st.scopes[s];
    assert ScopeOk(sc, s, |st.vars|, |st.refs|);
    if xs != [] {
      StaticCloseIs(st, s, xs);
      var d := StaticStep(st, s, xs[0]);
      if d.Success? {
        UnboundSame(st, d.value, s, xs[1..]);
        StaticCloseFails(d.value, s, xs[1..]);
        assert sc.upper.Some? ==> d.value.scopes[sc.upper.value].left.Some? == st.scopes[sc.upper.value].left.Some?;
      }
    }
  }

  /** ... its references: each bound one resolves to the variable of its name in `set`, the others stay as they were. */
  lemma {:induction false} StaticCloseRefs(st: State, s: ScopeId, xs: seq<RefId>)
    requires Valid(st) && s < |st.scopes| && Below(xs, |st.refs|) && StaticClose(st, s, xs).Success?
    ensures var r, sc := StaticClose(st, s, xs).value, st.scopes[s];
      && |r.refs| == |st.refs| && r.scopes[s].names == sc.names
      && forall y :: 0 <= y < |st.refs| ==>
           r.refs[y] == st.refs[y].(resolved := if y in xs && Binds(st, s, y)
                                                then Some(sc.names[st.refs[y].identifier.Name()])
                                                else st.refs[y].resolved)
    decreases |xs|
  {
    if xs != [] {
      var x := xs[0];
      StaticCloseIs(st, s, xs);
      var st1 := StaticStep(st, s, x).value;
      StaticCloseRefs(st1, s, xs[1..]);
      var r := StaticClose(st1, s, xs[1..]).value;
      var names := st.scopes[s].names;
      forall y | 0 <= y < |st.refs|
        ensures r.refs[y] == st.refs[y].(resolved := if y in xs && Binds(st, s, y)
                                                     then Some(names[st.refs[y].identifier.Name()])
                                                     else st.refs[y].resolved)
      {
        assert Binds(st1, s, y) == Binds(st, s, y);
        assert y in xs <==> y == x || y in xs[1..];
      }
    }
  }

  /** ... its scopes: the unbound references join `through` and the upper scope's `left`, in order. */
  lemma {:induction false} StaticCloseScopes(st: State, s: ScopeId, xs: seq<RefId>)
    requires Valid(st) && s < |st.scopes| && Below(xs, |st.refs|) && StaticClose(st, s, xs).Success?
    ensures var r, sc, ys := StaticClose(st, s, xs).value, st.scopes[s], Unbound(st, s, xs);
      && r.scopes[s].through == sc.through + ys
      && (sc.upper.Some? && st.scopes[sc.upper.value].left.Some? ==>
            var u := sc.upper.value;
            r.scopes[u].left == Some(st.scopes[u].left.value + ys))
    decreases |xs|
  {
    var sc := st.scopes[s];
    assert ScopeOk(sc, s, |st.vars|, |st.refs|);
    if xs != [] {
      var x := xs[0];
      StaticCloseIs(st, s, xs);
      var st1 := StaticStep(st, s, x).value;
      StaticCloseScopes(st1, s, xs[1..]);
      UnboundSame(st, st1, s, xs[1..]);
      var ys := Unbound(st, s, xs[1..]);
      if Binds(st, s, x) {
        assert Unbound(st, s, xs) == ys;
      } else {
        assert Unbound(st, s, xs) == [x] + ys;
        AppendAssoc(sc.through, [x], ys);
        AppendAssoc(st.scopes[sc.upper.value].left.value, [x], ys);
      }
    } else {
      assert sc.through + [] == sc.through;
      if sc.upper.Some? && st.scopes[sc.upper.value].left.Some? {
        assert st.scopes[sc.upper.value].left.value + [] == st.scopes[sc.upper.value].left.value;
      }
    }
  }

  /** ... and no scope but it and its upper scope changes. */
  lemma {:induction false} StaticCloseFrame(st: State, s: ScopeId, xs: seq<RefId>)
    requires Valid(st) && s < |st.scopes| && Below(xs, |st.refs|) && StaticClose(st, s, xs).Success?
    ensures var r, sc := StaticClose(st, s, xs).value, st.scopes[s];
      forall i :: 0 <= i < |st.scopes| && i != s && Some(i) != sc.upper ==> r.scopes[i] == st.scopes[i]
    decreases |xs|
  {
    if xs != [] {
      StaticCloseIs(st, s, xs);
      var st1 := StaticStep(st, s, xs[0]).value;
      StaticCloseFrame(st1, s, xs[1..]);
    }
  }

  /**
   * The static regime of `__close` on scope `s` with pending `xs` (a
   * `__resolve` or else a `__delegateToUpperScope` per reference): it
   * fails exactly when a name is unbound and the scope has no open upper
   * scope; otherwise the bound references resolve to the variable of their
   * name in `set`, the others are appended, in order, to `through` and to
   * the upper scope's `left`, and no other scope changes.
   */
  lemma StaticCloseEffect(st: State, s: ScopeId, xs: seq<RefId>)
    requires Valid(st) && s < |st.scopes| && Below(xs, |st.refs|)
    ensures var r, sc, ys := StaticClose(st, s, xs), st.scopes[s], Unbound(st, s, xs);
      && (r.Success? <==> ys == [] || (sc.upper.Some? && st.scopes[sc.upper.value].left.Some?))
      && (r.Success? ==>
            && |r.value.refs| == |st.refs| && r.value.scopes[s].names == sc.names
            && (forall y :: 0 <= y < |st.refs| ==>
                  r.value.refs[y] == st.refs[y].(resolved := if y in xs && Binds(st, s, y)
                                                             then Some(sc.names[st.refs[y].identifier.Name()])
                                                             else st.refs[y].resolved))
            && r.value.scopes[s].through == sc.through + ys
            && (sc.upper.Some? && st.scopes[sc.upper.value].left.Some? ==>
                  var u := sc.upper.value;
                  r.value.scopes[u].left == Some(st.scopes[u].left.value + ys))
            && (forall i :: 0 <= i < |st.scopes| && i != s && Some(i) != sc.upper ==>
                  r.value.scopes[i] == st.scopes[i]))
  {
    StaticCloseFails(st, s, xs);
    if StaticClose(st, s, xs).Success? {
      StaticCloseRefs(st, s, xs);
      StaticCloseScopes(st, s, xs);
      StaticCloseFrame(st, s, xs);
    }
  }

  lemma AppendAssoc(a: seq<RefId>, b: seq<RefId>, c: seq<RefId>)
    ensures a + b + c == a + (b + c)
  {
  }

  /** Appending the head of `xs`, then its tail, appends `xs`. */
  lemma ConsAppend(a: seq<RefId>, xs: seq<RefId>)
    requires xs != []
    ensures a + [xs[0]] + xs[1..] == a + xs
  {
    assert xs == [xs[0]] + xs[1..];
  }

  /** The `with` regime fails exactly when there is something to delegate and no open upper scope. */
  lemma {:induction false} WithCloseFails(st: State, s: ScopeId, xs: seq<RefId>)
    requires Valid(st) && s < |st.scopes| && Below(xs, |st.refs|)
    ensures var sc := st.scopes[s];
      WithClose(st, s, xs).Success? <==> xs == [] || (sc.upper.Some? && st.scopes[sc.upper.value].left.Some?)
    decreases |xs|
  {
    assert ScopeOk(st.scopes[s], s, |st.vars|, |st.refs|);
    if xs != [] {
      var x := xs[0];
      var t := st.(refs := st.refs[x := st.refs[x].(tainted := true)]);
      var d := Delegate(t, s, x);
      if d.Success? {
        WithCloseFails(d.value, s, xs[1..]);
      }
    }
  }

  /** ... its references: every pending one is tainted, none resolves, and no variable changes. */
  lemma {:induction false} WithCloseRefs(st: State, s: ScopeId, xs: seq<RefId>)
    requires Valid(st) && s < |st.scopes| && Below(xs, |st.refs|) && WithClose(st, s, xs).Success?
    ensures var r := WithClose(st, s, xs).value;
      && r.vars == st.vars && |r.refs| == |st.refs|
      && forall y :: 0 <= y < |st.refs| ==> r.refs[y] == st.refs[y].(tainted := st.refs[y].tainted || y in xs)
    decreases |xs|
  {
    if xs != [] {
      var x := xs[0];
      var t := st.(refs := st.refs[x := st.refs[x].(tainted := true)]);
      var st1 := Delegate(t, s, x).value;
      WithCloseRefs(st1, s, xs[1..]);
      var r := WithClose(st1, s, xs[1..]).value;
      forall y | 0 <= y < |st.refs|
        ensures r.refs[y] == st.refs[y].(tainted := st.refs[y].tainted || y in xs)
      {
        assert r.refs[y] == st1.refs[y].(tainted := st1.refs[y].tainted || y in xs[1..]);
        assert y in xs <==> y == x || y in xs[1..];
      }
    }
  }

  /** ... its scopes: the pending references join `through` and the upper scope's `left`, in order. */
  lemma {:induction false} WithCloseScopes(st: State, s: ScopeId, xs: seq<RefId>)
    requires Valid(st) && s < |st.scopes| && Below(xs, |st.refs|) && WithClose(st, s, xs).Success?
    ensures var r, sc := WithClose(st, s, xs).value, st.scopes[s];
      && r.scopes[s] == sc.(through := sc.through + xs)
      && (sc.upper.Some? && st.scopes[sc.upper.value].left.Some? ==>
            var u := sc.upper.value;
            r.scopes[u].left == Some(st.scopes[u].left.value + xs))
    decreases |xs|
  {
    var sc := st.scopes[s];
    assert ScopeOk(sc, s, |st.vars|, |st.refs|);
    if xs != [] {
      var x := xs[0];
      var t := st.(refs := st.refs[x := st.refs[x].(tainted := true)]);
      var st1 := Delegate(t, s, x).value;
      WithCloseScopes(st1, s, xs[1..]);
      ConsAppend(sc.through, xs);
      ConsAppend(st.scopes[sc.upper.value].left.value, xs);
    } else {
      assert sc.through + xs == sc.through;
      if sc.upper.Some? && st.scopes[sc.upper.value].left.Some? {
        assert st.scopes[sc.upper.value].left.value + xs == st.scopes[sc.upper.value].left.value;
      }
    }
  }

  /** ... and no scope but it and its upper scope changes. */
  lemma {:induction false} WithCloseFrame(st: State, s: ScopeId, xs: seq<RefId>)
    requires Valid(st) && s < |st.scopes| && Below(xs, |st.refs|) && WithClose(st, s, xs).Success?
    ensures var r, sc := WithClose(st, s, xs).value, st.scopes[s];
      forall i :: 0 <= i < |st.scopes| && i != s && Some(i) != sc.upper ==> r.scopes[i] == st.scopes[i]
    decreases |xs|
  {
    if xs != [] {
      var x := xs[0];
      var t := st.(refs := st.refs[x := st.refs[x].(tainted := true)]);
      var st1 := Delegate(t, s, x).value;
      WithCloseFrame(st1, s, xs[1..]);
    }
  }

  /**
   * The `with` regime of `__close` on scope `s` with pending `xs`: it fails
   * exactly when there is something to delegate and no open upper scope;
   * otherwise every pending reference is tainted and appended, in order, to
   * `through` and to the upper scope's `left`, none resolves, no variable
   * changes, and no other scope changes.
   */
  lemma WithCloseEffect(st: State, s: ScopeId, xs: seq<RefId>)
    requires Valid(st) && s < |st.scopes| && Below(xs, |st.refs|)
    ensures var r, sc := WithClose(st, s, xs), st.scopes[s];
      && (r.Success? <==> xs == [] || (sc.upper.Some? && st.scopes[sc.upper.value].left.Some?))
      && (r.Success? ==>
            && r.value.vars == st.vars && |r.value.refs| == |st.refs|
            && (forall y :: 0 <= y < |st.refs| ==> r.value.refs[y] == st.refs[y].(tainted := st.refs[y].tainted || y in xs))
            && r.value.scopes[s] == sc.(through := sc.through + xs)
            && (sc.upper.Some? && st.scopes[sc.upper.value].left.Some? ==>
                  var u := sc.upper.value;
                  r.value.scopes[u].left == Some(st.scopes[u].left.value + xs))
            && (forall i :: 0 <= i < |st.scopes| && i != s && Some(i) != sc.upper ==>
                  r.value.scopes[i] == st.scopes[i]))
  {
    WithCloseFails(st, s, xs);
    if WithClose(st, s, xs).Success? {
      WithCloseRefs(st, s, xs);
      WithCloseScopes(st, s, xs);
      WithCloseFrame(st, s, xs);
    }
  }

  /**
   * The dynamic regime of `__close` on scope `s` with pending `xs`: no
   * reference and no variable changes, and the pending references are
   * appended, in order, to `through` of `s` and of every scope up its
   * chain, and of no other scope.
   */
  lemma {:induction false} DynamicCloseEffect(st: State, s: ScopeId, xs: seq<RefId>)
    requires Valid(st) && s < |st.scopes|
    ensures Ordered(st.scopes)
    ensures var r := DynamicClose(st, s, xs);
      && r.refs == st.refs && r.vars == st.vars
      && (forall i :: 0 <= i < |st.scopes| ==>
            r.scopes[i] == st.scopes[i].(through := st.scopes[i].through + if OnChain(st.scopes, s, i) then xs else []))
    decreases |xs|
  {
    ValidOrdered(st);
    if xs != [] {
      var t := st.(scopes := PushThrough(st.scopes, s, xs[0]));
      assert xs == [xs[0]] + xs[1..];
      ChainSame(st.scopes, t.scopes, s);
      DynamicCloseEffect(t, s, xs[1..]);
      var r := DynamicClose(t, s, xs[1..]);
      assert r == DynamicClose(st, s, xs);
      forall i | 0 <= i < |st.scopes|
        ensures r.scopes[i] == st.scopes[i].(through := st.scopes[i].through + if OnChain(st.scopes, s, i) then xs else [])
      {
        var c := OnChain(st.scopes, s, i);
        assert t.scopes[i] == st.scopes[i].(through := st.scopes[i].through + if c then [xs[0]] else []);
        assert r.scopes[i] == t.scopes[i].(through := t.scopes[i].through + if c then xs[1..] else []);
        if c {
          assert st.scopes[i].through + [xs[0]] + xs[1..] == st.scopes[i].through + xs;
        } else {
          assert st.scopes[i].through + [] + [] == st.scopes[i].through;
        }
      }
    }
  }

  /** Which regime `__close` applies to a scope. */
  datatype Regime = Static | WithRegime | Dynamic

  function RegimeOf(sc: Scope): Regime
  {
    if !sc.dynamic then Static else if sc.kind == WithKind then WithRegime else Dynamic
  }

  /** The references of `left` settled by the scope's regime. */
  function Settle(st: State, s: ScopeId, xs: seq<RefId>): (r: Result<State, Fault>)
    requires Valid(st) && s < |st.scopes| && Below(xs, |st.refs|)
    ensures r.Success? ==> Valid(r.value) && Kept(st, r.value) && r.value.current == st.current
  {
    match RegimeOf(st.scopes[s])
    case Static => StaticClose(st, s, xs)
    case WithRegime => WithClose(st, s, xs)
    case Dynamic => Success(DynamicClose(st, s, xs))
  }

  /** `left` becomes null and the current scope is `upper`. */
  function Finish(st: State, s: ScopeId): (r: State)
    requires Valid(st) && s < |st.scopes|
    ensures Valid(r) && Kept(st, r)
    ensures r.current == st.scopes[s].upper && r.scopes[s].left.None?
    ensures r.scopes == st.scopes[s := st.scopes[s].(left := None)] && r.refs == st.refs && r.vars == st.vars
  {
    var sc := st.scopes[s];
    var sc1 := sc.(left := None);
    assert ScopeOk(sc, s, |st.vars|, |st.refs|);
    ScopesSet(st.scopes, s, sc1, |st.vars|, |st.refs|);
    var r := st.(scopes := st.scopes[s := sc1], current := sc.upper);
    assert Kept(st, r);
    r
  }

  /**
   * `__close` of scope `s`: the references in `left` are settled by the
   * scope's regime, then `left` becomes null and the upper scope becomes
   * the current one.  Closing a closed scope reads the length of null.
   */
  function Close(st: State, s: ScopeId): (r: Result<State, Fault>)
    requires Valid(st) && s < |st.scopes|
    ensures st.scopes[s].left.None? ==> r == Failure(NoScope)
    ensures r.Success? ==> Valid(r.value) && Kept(st, r.value)
    ensures r.Success? ==> r.value.current == st.scopes[s].upper && r.value.scopes[s].left.None?
  {
    var sc := st.scopes[s];
    if sc.left.None? then Failure(NoScope)
    else
      assert ScopeOk(sc, s, |st.vars|, |st.refs|);
      var st1 :- Settle(st, s, sc.left.value);
      assert Evolves(sc, st1.scopes[s]);
      var r := Finish(st1, s);
      KeptTrans(st, st1, r);
      Success(r)
  }

  // ---------------------------------------------------------------------
  // What `__close` does, regime by regime

  /**
   * `__close` of an open static scope: it fails exactly when a pending name
   * is unbound and there is no open upper scope; otherwise each bound
   * pending reference resolves to the variable of its name in `set`, the
   * unbound ones are appended, in order, to `through` and to the upper
   * scope's `left`, the scope is closed and its upper scope is current.
   */
  lemma CloseStaticRegime(st: State, s: ScopeId)
    requires Valid(st) && s < |st.scopes| && st.scopes[s].left.Some? && !st.scopes[s].dynamic
    ensures var r, sc := Close(st, s), st.scopes[s];
      var l := sc.left.value;
      var ys := Unbound(st, s, l);
      && (r.Success? <==> ys == [] || (sc.upper.Some? && st.scopes[sc.upper.value].left.Some?))
      && (r.Success? ==>
            && r.value.current == sc.upper && r.value.scopes[s].left.None? && |r.value.refs| == |st.refs|
            && (forall y :: 0 <= y < |st.refs| ==>
                  r.value.refs[y] == st.refs[y].(resolved := if y in l && Binds(st, s, y)
                                                             then Some(sc.names[st.refs[y].identifier.Name()])
                                                             else st.refs[y].resolved))
            && r.value.scopes[s].through == sc.through + ys
            && (sc.upper.Some? && st.scopes[sc.upper.value].left.Some? ==>
                  var u := sc.upper.value;
                  r.value.scopes[u].left == Some(st.scopes[u].left.value + ys)))
  {
    var sc := st.scopes[s];
    assert ScopeOk(sc, s, |st.vars|, |st.refs|);
    StaticCloseEffect(st, s, sc.left.value);
  }

  /**
   * `__close` of an open `with` scope (dynamic, of type 'with'): it fails
   * exactly when something is pending and there is no open upper scope;
   * otherwise every pending reference is tainted and none resolves, they
   * are appended, in order, to `through` and to the upper scope's `left`,
   * no variable changes, the scope is closed and its upper scope is current.
   */
  lemma CloseWithRegime(st: State, s: ScopeId)
    requires Valid(st) && s < |st.scopes| && st.scopes[s].left.Some?
    requires st.scopes[s].dynamic && st.scopes[s].kind == WithKind
    ensures var r, sc := Close(st, s), st.scopes[s];
      var l := sc.left.value;
      && (r.Success? <==> l == [] || (sc.upper.Some? && st.scopes[sc.upper.value].left.Some?))
      && (r.Success? ==>
            && r.value.current == sc.upper && r.value.scopes[s].left.None?
            && r.value.vars == st.vars && |r.value.refs| == |st.refs|
            && (forall y :: 0 <= y < |st.refs| ==> r.value.refs[y] == st.refs[y].(tainted := st.refs[y].tainted || y in l))
            && r.value.scopes[s].through == sc.through + l
            && (sc.upper.Some? && st.scopes[sc.upper.value].left.Some? ==>
                  var u := sc.upper.value;
                  r.value.scopes[u].left == Some(st.scopes[u].left.value + l)))
  {
    var sc := st.scopes[s];
    assert ScopeOk(sc, s, |st.vars|, |st.refs|);
    WithCloseEffect(st, s, sc.left.value);
  }

  /**
   * `__close` of an open dynamic scope that is not a `with` scope (the
   * global scope, a function with a direct eval): it never fails, no
   * reference or variable changes, the pending references are appended, in
   * order, to `through` of the scope and of every scope up its chain, the
   * scope is closed and its upper scope is current.
   */
  lemma CloseDynamicRegime(st: State, s: ScopeId)
    requires Valid(st) && s < |st.scopes| && st.scopes[s].left.Some?
    requires st.scopes[s].dynamic && st.scopes[s].kind != WithKind
    ensures Ordered(st.scopes)
    ensures var r, sc := Close(st, s), st.scopes[s];
      var l := sc.left.value;
      && r.Success? && r.value.current == sc.upper && r.value.scopes[s].left.None?
      && r.value.refs == st.refs && r.value.vars == st.vars
      && forall i :: 0 <= i < |st.scopes| ==>
           r.value.scopes[i].through == st.scopes[i].through + if OnChain(st.scopes, s, i) then l else []
  {
    var sc := st.scopes[s];
    assert ScopeOk(sc, s, |st.vars|, |st.refs|);
    DynamicCloseEffect(st, s, sc.left.value);
  }

  // ---------------------------------------------------------------------
  // The Scope constructor

  /** `Scope.isRequired(node)`: the node types that open a scope. */
  predicate IsRequired(n: Node)
  {
    n.Program? || n.FunctionExpression? || n.FunctionDeclaration? || n.WithStatement? || n.CatchClause?
  }

  /** The constructor's `type`: catch, with, global, and 'function' for every other block. */
  function KindOf(block: Node): Kind
  {
    if block.CatchClause? then CatchKind
    else if block.WithStatement? then WithKind
    else if block.Program? then GlobalKind
    else FunctionKind
  }

  /** A scope as the constructor starts it: nothing defined, open, dynamic only for global and with. */
  function Blank(kind: Kind, block: Handle, variableScope: ScopeId, naming: bool): Scope
  {
    Scope(kind, map[], kind == GlobalKind || kind == WithKind, block, [], [], [], {}, Some([]),
          variableScope, naming, false, None)
  }

  /** The end of the constructor: `upper` is the current scope, which the new scope replaces, and it joins `scopes`. */
  function Push(st: State, sc: Scope): State
  {
    st.(scopes := st.scopes + [sc.(upper := st.current)], current := Some(|st.scopes|))
  }

  lemma PushValid(st: State, sc: Scope)
    requires Valid(st) && sc.variableScope <= |st.scopes| && sc.names == map[] && sc.references == []
    requires sc.left == Some([])
    ensures Valid(Push(st, sc))
  {
    var r := Push(st, sc);
    assert ScopeOk(sc.(upper := st.current), |st.scopes|, |st.vars|, |st.refs|);
    ScopesPush(st.scopes, sc.(upper := st.current), |st.vars|, |st.refs|);
    RefsGrow(st.refs, |st.scopes|, |st.vars|, |r.scopes|, |st.vars|);
    VarsGrow(st.vars, |st.scopes|, |r.scopes|);
  }

  /** A function expression with a name gets a name scope before its own scope. */
  predicate Named(block: Node)
  {
    block.FunctionExpression? && block.id.Some?
  }

  /**
   * `new Scope(block, {naming: true})`: a 'function' scope on the same
   * block, its own variable scope, flagged `functionExpressionScope`, which
   * defines the function's name `id`.
   */
  function OpenName(st: State, block: Handle, id: Option<Handle>): (r: State)
    requires Valid(st)
    ensures Valid(r) && |r.scopes| == |st.scopes| + 1 && r.current == Some(|st.scopes|)
    ensures r.refs == st.refs
    ensures r.scopes[..|st.scopes|] == st.scopes
  {
    var k := |st.scopes|;
    var st1 := Push(st, Blank(FunctionKind, block, k, true));
    PushValid(st, Blank(FunctionKind, block, k, true));
    var r := Define(st1, k, id);
    assert forall i :: 0 <= i < k ==> r.scopes[i] == st1.scopes[i];
    r
  }

  /**
   * `new Scope(block, {})`: for a named function expression the name scope
   * first; then a scope of the block's kind whose variable scope is itself
   * (global, function) or the current scope's (catch, with; a null current
   * scope raises); a function scope starts with the tainted `arguments`
   * variable.
   */
  function NewScope(st: State, block: Node): (r: Result<State, Fault>)
    requires Valid(st)
    ensures (KindOf(block) == CatchKind || KindOf(block) == WithKind) && st.current.None? <==> r.Failure?
    ensures r.Success? ==> Valid(r.value) && r.value.refs == st.refs
    ensures r.Success? ==> |r.value.scopes| == |st.scopes| + (if Named(block) then 2 else 1)
    ensures r.Success? ==> r.value.scopes[..|st.scopes|] == st.scopes
    ensures r.Success? ==> r.value.current == Some(|r.value.scopes| - 1)
    ensures r.Success? ==> r.value.scopes[|r.value.scopes| - 1].block == Scopes.HandleOf(block)
  {
    Construct(st, KindOf(block), Scopes.HandleOf(block), Named(block), if Named(block) then HandleOpt(block.id) else None)
  }

  /** The constructor on what it reads from the block: its kind, the block, and the name of a named function expression. */
  function Construct(st: State, kind: Kind, block: Handle, named: bool, id: Option<Handle>): (r: Result<State, Fault>)
    requires Valid(st)
    ensures (kind == CatchKind || kind == WithKind) && st.current.None? <==> r.Failure?
    ensures r.Success? ==> Valid(r.value) && r.value.refs == st.refs
    ensures r.Success? ==> |r.value.scopes| == |st.scopes| + (if named then 2 else 1)
    ensures r.Success? ==> r.value.scopes[..|st.scopes|] == st.scopes
    ensures r.Success? ==> r.value.current == Some(|r.value.scopes| - 1)
    ensures r.Success? ==> r.value.scopes[|r.value.scopes| - 1].block == block
  {
    if (kind == CatchKind || kind == WithKind) && st.current.None? then Failure(NoScope)
    else
      var st1 := if named then OpenName(st, block, id) else st;
      var vs := match kind
                  case GlobalKind => |st1.scopes|
                  case FunctionKind => |st1.scopes|
                  case CatchKind => VariableScopeOf(st)
                  case WithKind => VariableScopeOf(st);
      var r := OpenScope(st1, kind, block, vs);
      assert r.scopes[..|st.scopes|] == r.scopes[..|st1.scopes|][..|st.scopes|];
      Success(r)
  }

  /** The variable scope of the current scope. */
  function VariableScopeOf(st: State): (vs: ScopeId)
    requires Valid(st) && st.current.Some?
    ensures vs < |st.scopes|
  {
    assert ScopeOk(st.scopes[st.current.value], st.current.value, |st.vars|, |st.refs|);
    st.scopes[st.current.value].variableScope
  }

  /** One scope of `kind` on `block`, last and current; a function scope with its `arguments` variable. */
  function OpenScope(st: State, kind: Kind, block: Handle, vs: ScopeId): (r: State)
    requires Valid(st) && vs <= |st.scopes|
    ensures Valid(r) && r.refs == st.refs && |r.scopes| == |st.scopes| + 1
    ensures r.scopes[..|st.scopes|] == st.scopes && r.current == Some(|st.scopes|)
    ensures r.scopes[|st.scopes|].block == block
  {
    var sc := Blank(kind, block, vs, false);
    var st2 := Push(st, sc);
    PushValid(st, sc);
    assert st2.scopes[..|st.scopes|] == st.scopes;
    if kind != FunctionKind then st2 else AddArguments(st2, |st.scopes|)
  }

  /** The tainted `arguments` variable a function scope `k`, the last scope, starts with. */
  function AddArguments(st: State, k: ScopeId): (r: State)
    requires Valid(st) && k == |st.scopes| - 1
    ensures Valid(r) && r.refs == st.refs && r.current == st.current
    ensures |r.scopes| == |st.scopes| && r.scopes[..k] == st.scopes[..k]
    ensures r.scopes[k].block == st.scopes[k].block && r.scopes[k].names == map["arguments" := |st.vars|]
  {
    var v := |st.vars|;
    var sc2 := st.scopes[k].(names := map["arguments" := v], variables := [v], taints := {"arguments"});
    var r := st.(vars := st.vars + [Variable("arguments", [], [], false, true, k)], scopes := st.scopes[k := sc2]);
    assert ScopeOk(st.scopes[k], k, |st.vars|, |st.refs|);
    ScopesGrow(st.scopes, |st.vars|, |st.refs|, |r.vars|, |r.refs|);
    assert ScopeOk(sc2, k, |r.vars|, |r.refs|);
    ScopesSet(st.scopes, k, sc2, |r.vars|, |r.refs|);
    RefsGrow(st.refs, |st.scopes|, |st.vars|, |st.scopes|, |r.vars|);
    assert r.scopes[..k] == st.scopes[..k];
    r
  }
}
