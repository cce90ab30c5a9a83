/**
 * The ScopeManager as the lib/scope.js code drives it: one object holding the
 * arenas and the current-scope index, whose methods update them in place.
 * Each method is proved to leave exactly the state its pure specification
 * (modules Scopes, Closing, Nesting, Queries) describes, so every property
 * proved there holds of the object.
 */
module Manager {
  import opened Base
  import opened Ast
  import opened Scopes
  import opened Closing
  import opened Nesting
  import opened Queries

  class ScopeManager {
    var scopes: seq<Scope>
    var vars: seq<Variable>
    var refs: seq<Reference>
    var nodeToScope: map<NodeId, seq<ScopeId>>
    var current: Option<ScopeId>
    var globalScope: Option<ScopeId>
    /** The analysis options (`__isOptimistic`, `__useDirective`, …). */
    const options: Options

    /** The manager's state as a value. */
    function Snap(): State
      reads this
    {
      State(scopes, vars, refs, nodeToScope, current, globalScope)
    }

    ghost predicate Inv()
      reads this
    {
      Valid(Snap())
    }

    constructor (options: Options)
      ensures Snap() == EmptyState && this.options == options
    {
      scopes := [];
      vars := [];
      refs := [];
      nodeToScope := map[];
      current := None;
      globalScope := None;
      this.options := options;
    }

    /** Replaces the whole state (the effect of a step specified as a value). */
    method Store(st: State)
      modifies this
      ensures Snap() == st
    {
      scopes, vars, refs := st.scopes, st.vars, st.refs;
      nodeToScope, current, globalScope := st.nodeToScope, st.current, st.globalScope;
    }

    // -------------------------------------------------------------------
    // __close

    /** `__resolve` of a reference whose name the scope binds. */
    method ResolveRef(s: ScopeId, x: RefId)
      requires Closable(Snap(), s) && x < |refs| && CanResolve(Snap(), s, x)
      modifies this
      ensures Snap() == Closing.Resolve(old(Snap()), s, x)
    {
      var ref := refs[x];
      var v := scopes[s].names[ref.identifier.Name()];
      var va := vars[v];
      var sameScope := scopes[ref.from].variableScope == scopes[s].variableScope;
      refs := refs[x := ref.(resolved := Some(v))];
      vars := vars[v := va.(references := va.references + [x], stack := va.stack && sameScope,
                            tainted := va.tainted || ref.tainted)];
      scopes := scopes[s := scopes[s].(taints := scopes[s].taints + (if ref.tainted then {va.name} else {}))];
    }

    /** `__delegateToUpperScope`. */
    method DelegateRef(s: ScopeId, x: RefId)
      requires Closable(Snap(), s)
      modifies this
      ensures Snap() == Delegate(old(Snap()), s, x)
    {
      var sc := scopes[s];
      scopes := scopes[s := sc.(through := sc.through + [x])];
      if sc.upper.Some? {
        var u := sc.upper.value;
        scopes := scopes[u := scopes[u].(left := Some(scopes[u].left.value + [x]))];
      }
    }

    /** The static loop: each pending reference is resolved here or delegated. */
    method CloseStaticLoop(s: ScopeId, l: seq<RefId>)
      requires Closable(Snap(), s) && Below(l, |refs|)
      modifies this
      ensures Snap() == CloseStatic(old(Snap()), s, l)
    {
      ghost var st0 := Snap();
      var i := 0;
      while i < |l|
        invariant 0 <= i <= |l|
        invariant Snap() == CloseStatic(st0, s, l[..i])
      {
        assert l[..i + 1][..i] == l[..i];
        ClosableKept(st0, Snap(), s);
        var x := l[i];
        if CanResolve(Snap(), s, x) {
          ResolveRef(s, x);
        } else {
          DelegateRef(s, x);
        }
        i := i + 1;
      }
      assert l[..|l|] == l;
    }

    /** The `with` loop: each pending reference is tainted and delegated. */
    method CloseWithLoop(s: ScopeId, l: seq<RefId>)
      requires Closable(Snap(), s) && Below(l, |refs|)
      modifies this
      ensures Snap() == CloseWith(old(Snap()), s, l)
    {
      ghost var st0 := Snap();
      var i := 0;
      while i < |l|
        invariant 0 <= i <= |l|
        invariant Snap() == CloseWith(st0, s, l[..i])
      {
        assert l[..i + 1][..i] == l[..i];
        ClosableKept(st0, Snap(), s);
        var x := l[i];
        ghost var before := Snap();
        refs := refs[x := refs[x].(tainted := true)];
        assert Snap() == TaintRef(before, x);
        ClosableKept(before, Snap(), s);
        DelegateRef(s, x);
        i := i + 1;
      }
      assert l[..|l|] == l;
    }

    /** The `do … while (current)` loop: `x` goes onto `through` of `c` and every scope above it. */
    method ThroughLoop(c: ScopeId, x: RefId)
      requires c < |scopes| && UppersBelow(Snap())
      modifies this
      ensures Snap() == ThroughChain(old(Snap()), c, x)
    {
      ghost var goal := ThroughChain(Snap(), c, x);
      var cur: Option<ScopeId> := Some(c);
      while cur.Some?
        invariant cur.Some? ==> cur.value < |scopes| && UppersBelow(Snap()) && ThroughChain(Snap(), cur.value, x) == goal
        invariant cur.None? ==> Snap() == goal
        decreases if cur.Some? then cur.value + 1 else 0
      {
        var k := cur.value;
        ghost var before := Snap();
        scopes := scopes[k := scopes[k].(through := scopes[k].through + [x])];
        assert Snap() == PushThrough(before, k, x);
        UppersKept(before, Snap());
        cur := scopes[k].upper;
      }
    }

    /** The dynamic loop: every pending reference passes through the whole chain. */
    method CloseDynamicLoop(s: ScopeId, l: seq<RefId>)
      requires Closable(Snap(), s)
      modifies this
      ensures Snap() == CloseDynamic(old(Snap()), s, l)
    {
      ghost var st0 := Snap();
      var i := 0;
      while i < |l|
        invariant 0 <= i <= |l|
        invariant Snap() == CloseDynamic(st0, s, l[..i])
      {
        assert l[..i + 1][..i] == l[..i];
        ClosableKept(st0, Snap(), s);
        ThroughLoop(s, l[i]);
        i := i + 1;
      }
      assert l[..|l|] == l;
    }

    /** The first loop of the global phase: the implicit-global candidates among the pending references. */
    method ImplicitCandidates(s: ScopeId, l: seq<RefId>) returns (implicit: seq<ImplicitInfo>)
      requires s < |scopes| && Below(l, |refs|)
      ensures implicit == ImplicitTargets(Snap(), s, l)
    {
      implicit := [];
      var i := 0;
      while i < |l|
        invariant 0 <= i <= |l|
        invariant implicit == ImplicitTargets(Snap(), s, l[..i])
      {
        assert l[..i + 1][..i] == l[..i];
        var ref := refs[l[i]];
        if ref.maybeImplicitGlobal.Some? && ref.identifier.Name() !in scopes[s].names {
          implicit := implicit + [ref.maybeImplicitGlobal.value];
        }
        i := i + 1;
      }
      assert l[..|l|] == l;
    }

    /** The second loop of the global phase: each candidate is defined in `implicit`. */
    method DefineImplicitLoop(s: ScopeId, implicit: seq<ImplicitInfo>)
      requires Inv() && s < |scopes| && scopes[s].implicit.Some?
      modifies this
      ensures Snap() == DefineImplicits(old(Snap()), s, implicit)
    {
      ghost var m := Snap();
      var j := 0;
      while j < |implicit|
        invariant 0 <= j <= |implicit|
        invariant Snap() == DefineImplicits(m, s, implicit[..j])
        invariant Inv() && s < |scopes| && scopes[s].implicit.Some?
      {
        ghost var pre := implicit[..j + 1];
        assert pre[..j] == implicit[..j] && pre[j] == implicit[j];
        var info := implicit[j];
        ghost var next := DefineImplicit(Snap(), s, Some(info.pattern), ImplicitDef(info));
        assert next == DefineImplicits(m, s, pre);
        Store(DefineImplicit(Snap(), s, Some(info.pattern), ImplicitDef(info)));
        j := j + 1;
      }
      assert implicit[..|implicit|] == implicit;
    }

    /** The global phase: collect the implicit-global candidates, define them, record `implicit.left`. */
    method GlobalPhase(s: ScopeId, l: seq<RefId>)
      requires Inv() && s < |scopes| && scopes[s].implicit.Some? && Below(l, |refs|)
      modifies this
      ensures Snap() == GlobalClose(old(Snap()), s, l)
    {
      var implicit := ImplicitCandidates(s, l);
      DefineImplicitLoop(s, implicit);
      var sc := scopes[s];
      scopes := scopes[s := sc.(implicit := Some(sc.implicit.value.(left := l)))];
    }

    /** The resolution loop of `__close`, in the regime the scope and the options select. */
    method RegimeLoop(s: ScopeId) returns (l: seq<RefId>)
      requires Inv() && current == Some(s)
      modifies this
      ensures Snap() == Regime(old(Snap()), s, options.optimistic) && l == old(Pending(Snap(), s))
    {
      l := Pending(Snap(), s);
      var sc := scopes[s];
      if !sc.dynamic || options.optimistic {
        CloseStaticLoop(s, l);
      } else if sc.scopeType == WithScope {
        CloseWithLoop(s, l);
      } else {
        CloseDynamicLoop(s, l);
      }
    }

    /** `__close` of the current scope. */
    method Close(s: ScopeId)
      requires Inv() && current == Some(s)
      modifies this
      ensures Snap() == Closing.Close(old(Snap()), s, options.optimistic)
      ensures Inv() && Grows(old(Snap()), Snap()) && current == old(scopes[s].upper)
    {
      ghost var st0 := Snap();
      var isGlobal := scopes[s].scopeType == GlobalScope;
      var l := RegimeLoop(s);
      RegimeValid(st0, s, options.optimistic);
      if isGlobal {
        assert ScopeGrows(st0.scopes[s], scopes[s]);
        assert ScopeOk(scopes, vars, |refs|, s);
        GlobalPhase(s, l);
      }
      current := scopes[s].upper;
      scopes := scopes[s := scopes[s].(left := None)];
      CloseValid(st0, s, options.optimistic);
    }

    // -------------------------------------------------------------------
    // The Scope constructor

    /**
     * `new Scope(…)` through `__nestScope`: the scope made for `block` (and, for
     * a named function expression, its name scope first) is registered and
     * becomes current.  When the constructor throws, the analysis stops; the
     * state is then left as it was.
     */
    method NestScope(block: Node, isMethodDefinition: bool, special: SpecialScope) returns (r: Outcome<Error>)
      requires Inv()
      modifies this
      ensures var e := Nesting.NestScope(old(Snap()), block, isMethodDefinition, special, options.directive);
        && (e.Success? ==> r.Pass? && Snap() == e.value)
        && (e.Failure? ==> r == Fail(e.error) && Snap() == old(Snap()))
    {
      var e := Nesting.NestScope(Snap(), block, isMethodDefinition, special, options.directive);
      if e.Success? {
        Store(e.value);
        r := Pass;
      } else {
        r := Fail(e.error);
      }
    }

    // -------------------------------------------------------------------
    // Definitions and references

    /** `__define` on scope `s`. */
    method Define(s: ScopeId, node: Option<Handle>, def: Definition)
      requires Inv() && s < |scopes|
      modifies this
      ensures Snap() == Scopes.Define(old(Snap()), s, node, def)
    {
      if IsIdent(node) {
        assert ScopeOk(scopes, vars, |refs|, s);
        var name := node.value.name;
        if name in scopes[s].names {
          var v := scopes[s].names[name];
          vars := vars[v := Extend(vars[v], node, Some(def))];
        } else {
          var v := |vars|;
          vars := vars + [Extend(NewVariable(name, s), node, Some(def))];
          scopes := scopes[s := scopes[s].(names := scopes[s].names[name := v],
                                           variables := scopes[s].variables + [v])];
        }
      }
    }

    /** `__referencing` on scope `s`. */
    method Referencing(s: ScopeId, node: Option<Handle>, assign: Option<AccessFlag>, writeExpr: Option<Handle>,
                       maybeImplicitGlobal: Option<ImplicitInfo>, partial: bool)
      requires Inv() && s < |scopes| && scopes[s].left.Some?
      modifies this
      ensures Snap() == Scopes.Referencing(old(Snap()), s, node, assign, writeExpr, maybeImplicitGlobal, partial)
    {
      if IsIdent(node) {
        var x := |refs|;
        refs := refs + [NewReference(node.value, s, assign, writeExpr, maybeImplicitGlobal, partial)];
        var sc := scopes[s];
        scopes := scopes[s := sc.(references := sc.references + [x], left := Some(sc.left.value + [x]))];
      }
    }

    /** `__detectEval` on scope `s`: the `do … while (current)` loop up the chain. */
    method DetectEval(s: ScopeId)
      requires Inv() && s < |scopes|
      modifies this
      ensures Snap() == Queries.DetectEval(old(Snap()), s)
    {
      ghost var st0 := Snap();
      ValidUppers(st0);
      scopes := scopes[s := scopes[s].(directCallToEvalScope := true)];
      assert FlagsOnly(st0, Snap());
      FlagsAncestors(st0, Snap(), s);
      ghost var goal := MarkDynamic(Snap(), s);
      var cur: Option<ScopeId> := Some(s);
      while cur.Some?
        invariant cur.Some? ==> cur.value < |scopes| && UppersBelow(Snap()) && MarkDynamic(Snap(), cur.value) == goal
        invariant cur.None? ==> Snap() == goal
        decreases if cur.Some? then cur.value + 1 else 0
      {
        var k := cur.value;
        scopes := scopes[k := scopes[k].(dynamic := true)];
        assert UppersBelow(Snap());
        cur := scopes[k].upper;
      }
    }

    /** `__detectThis` on scope `s`. */
    method DetectThis(s: ScopeId)
      requires Inv() && s < |scopes|
      modifies this
      ensures Snap() == Queries.DetectThis(old(Snap()), s)
    {
      scopes := scopes[s := scopes[s].(thisFound := true)];
    }

    // -------------------------------------------------------------------
    // Queries with loops

    /** `isUsedName`: the scope's `set`, then a linear search of `through`. */
    method IsUsedName(s: ScopeId, name: string) returns (used: bool)
      requires s < |scopes|
      ensures used == UsedName(Snap(), s, name)
    {
      if name in scopes[s].names {
        return true;
      }
      var through := scopes[s].through;
      var i := 0;
      while i < |through|
        invariant 0 <= i <= |through|
        invariant forall j :: 0 <= j < i ==> !Uses(Snap(), through[j], name)
      {
        if Uses(Snap(), through[i], name) {
          return true;
        }
        i := i + 1;
      }
      return false;
    }

    /**
     * `resolve(ident)`: after the two assertions, the first reference of the
     * scope whose identifier is `ident`, as its position in `references`.
     */
    method Resolve(s: ScopeId, ident: Handle) returns (r: Result<Option<nat>, Error>)
      requires s < |scopes|
      ensures ResolveCheck(Snap(), s, ident).Fail? ==> r == Failure(ResolveCheck(Snap(), s, ident).error)
      ensures ResolveCheck(Snap(), s, ident).Pass? ==>
        r.Success? && FirstRef(Snap(), scopes[s].references, ident, r.value)
    {
      var check := ResolveCheck(Snap(), s, ident);
      if check.Fail? {
        return Failure(check.error);
      }
      var rs := scopes[s].references;
      var i := 0;
      while i < |rs|
        invariant 0 <= i <= |rs|
        invariant forall j :: 0 <= j < i ==> !RefersTo(Snap(), rs[j], ident)
      {
        if RefersTo(Snap(), rs[i], ident) {
          return Success(Some(i));
        }
        i := i + 1;
      }
      return Success(None);
    }
  }
}
