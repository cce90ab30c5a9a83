/**
 * Closing a scope (lib/scope.js `__close`, `__resolve`,
 * `__delegateToUpperScope`): every pending reference of `__left` is either
 * resolved locally or handed to the enclosing scope, in one of three regimes,
 * and a global scope then promotes implicit globals.
 *
 * The steps are plain state transformers that need only the few facts
 * `Closable` collects; that they keep the arena invariant is proved
 * separately (`...Valid` lemmas), and what they do to scopes, variables and
 * references is proved by induction over the pending list.
 */
module Closing {
  import opened Base
  import opened Scopes

  /** The upper scope, if any, precedes `s` and is still open: delegation has a `__left` to push onto. */
  ghost predicate UpperOpen(st: State, s: ScopeId)
    requires s < |st.scopes|
  {
    st.scopes[s].upper.Some? ==>
      st.scopes[s].upper.value < s && st.scopes[st.scopes[s].upper.value].left.Some?
  }

  /** Every `upper` link points to an earlier scope. */
  ghost predicate UppersBelow(st: State)
  {
    forall i :: 0 <= i < |st.scopes| && st.scopes[i].upper.Some? ==> st.scopes[i].upper.value < i
  }

  /** What the steps of `__close` on scope `s` rely on; `Valid` and `s` being current imply it. */
  ghost predicate Closable(st: State, s: ScopeId)
  {
    && s < |st.scopes|
    && (forall k :: k in st.scopes[s].names ==> st.scopes[s].names[k] < |st.vars|)
    && (forall x :: 0 <= x < |st.refs| ==> st.refs[x].from < |st.scopes|)
    && UpperOpen(st, s)
    && UppersBelow(st)
  }

  lemma ValidClosable(st: State, s: ScopeId)
    requires Valid(st) && st.current == Some(s)
    ensures Closable(st, s)
  {
    assert ScopeOk(st.scopes, st.vars, |st.refs|, s);
    assert ChainOpen(st.scopes, s);
    if st.scopes[s].upper.Some? {
      assert ChainOpen(st.scopes, st.scopes[s].upper.value);
    }
    forall x | 0 <= x < |st.refs| ensures st.refs[x].from < |st.scopes| {
      assert RefOk(|st.scopes|, |st.vars|, st.refs[x]);
    }
    forall i | 0 <= i < |st.scopes| && st.scopes[i].upper.Some? ensures st.scopes[i].upper.value < i {
      assert ScopeOk(st.scopes, st.vars, |st.refs|, i);
    }
    assert UpperOpen(st, s);
    assert UppersBelow(st);
    assert forall k :: k in st.scopes[s].names ==> st.scopes[s].names[k] < |st.vars|;
  }

  /** What no step of `__close` changes in a scope: its names, links and openness. */
  ghost predicate ScopeKept(x: Scope, y: Scope)
  {
    y.names == x.names && y.upper == x.upper && y.left.Some? == x.left.Some? && y.variableScope == x.variableScope
  }

  /** What no step of `__close` changes in a reference: its identifier, origin and implicit-global information. */
  ghost predicate RefKept(x: Reference, y: Reference)
  {
    y.identifier == x.identifier && y.from == x.from && y.maybeImplicitGlobal == x.maybeImplicitGlobal
  }

  /** What no step of `__close` changes: sizes, name tables, links, openness, and who refers from where. */
  ghost predicate Kept(a: State, b: State)
  {
    && |b.scopes| == |a.scopes| && |b.vars| == |a.vars| && |b.refs| == |a.refs|
    && (forall i {:trigger ScopeKept(a.scopes[i], b.scopes[i])} :: 0 <= i < |a.scopes| ==> ScopeKept(a.scopes[i], b.scopes[i]))
    && (forall x {:trigger RefKept(a.refs[x], b.refs[x])} :: 0 <= x < |a.refs| ==> RefKept(a.refs[x], b.refs[x]))
    && b.current == a.current && b.globalScope == a.globalScope && b.nodeToScope == a.nodeToScope
  }

  lemma KeptTrans(a: State, b: State, c: State)
    requires Kept(a, b) && Kept(b, c)
    ensures Kept(a, c)
  {
    forall i | 0 <= i < |a.scopes| ensures ScopeKept(a.scopes[i], c.scopes[i]) {
      assert ScopeKept(a.scopes[i], b.scopes[i]) && ScopeKept(b.scopes[i], c.scopes[i]);
    }
    forall x | 0 <= x < |a.refs| ensures RefKept(a.refs[x], c.refs[x]) {
      assert RefKept(a.refs[x], b.refs[x]) && RefKept(b.refs[x], c.refs[x]);
    }
  }

  lemma ClosableKept(a: State, b: State, s: ScopeId)
    requires Closable(a, s) && Kept(a, b)
    ensures Closable(b, s)
  {
    assert ScopeKept(a.scopes[s], b.scopes[s]);
    if a.scopes[s].upper.Some? {
      assert ScopeKept(a.scopes[a.scopes[s].upper.value], b.scopes[a.scopes[s].upper.value]);
    }
    forall x | 0 <= x < |b.refs| ensures b.refs[x].from < |b.scopes| {
      assert RefKept(a.refs[x], b.refs[x]);
    }
    forall i | 0 <= i < |b.scopes| && b.scopes[i].upper.Some? ensures b.scopes[i].upper.value < i {
      assert ScopeKept(a.scopes[i], b.scopes[i]);
    }
  }

  /** `this.set.has(ref.identifier.name)`: `__resolve` will succeed. */
  predicate CanResolve(st: State, s: ScopeId, x: RefId)
    requires s < |st.scopes| && x < |st.refs|
  {
    st.refs[x].identifier.Name() in st.scopes[s].names
  }

  lemma CanResolveKept(a: State, b: State, s: ScopeId, x: RefId)
    requires s < |a.scopes| && x < |a.refs| && Kept(a, b)
    ensures CanResolve(b, s, x) == CanResolve(a, s, x)
    ensures CanResolve(a, s, x) ==> Target(b, s, x) == Target(a, s, x)
  {
    assert ScopeKept(a.scopes[s], b.scopes[s]) && RefKept(a.refs[x], b.refs[x]);
  }

  /** The Variable a resolvable reference resolves to. */
  function Target(st: State, s: ScopeId, x: RefId): VarId
    requires s < |st.scopes| && x < |st.refs| && CanResolve(st, s, x)
  {
    st.scopes[s].names[st.refs[x].identifier.Name()]
  }

  /** `ref.from.variableScope === this.variableScope`. */
  predicate SameVariableScope(st: State, s: ScopeId, x: RefId)
    requires s < |st.scopes| && x < |st.refs| && st.refs[x].from < |st.scopes|
  {
    st.scopes[st.refs[x].from].variableScope == st.scopes[s].variableScope
  }

  // ---------------------------------------------------------------------
  // One reference

  /**
   * `__resolve` when the name is in `set`: the Variable records the reference,
   * keeps `stack` only for a reference from the same variable scope, and is
   * tainted (with the scope's `taints` entry) by a tainted reference; the
   * reference is resolved to the Variable.
   */
  function Resolve(st: State, s: ScopeId, x: RefId): State
    requires Closable(st, s) && x < |st.refs| && CanResolve(st, s, x)
  {
    var ref := st.refs[x];
    var sc := st.scopes[s];
    var v := Target(st, s, x);
    var va := st.vars[v];
    st.(refs := st.refs[x := ref.(resolved := Some(v))],
        vars := st.vars[v := va.(references := va.references + [x],
                                 stack := va.stack && SameVariableScope(st, s, x),
                                 tainted := va.tainted || ref.tainted)],
        scopes := st.scopes[s := sc.(taints := sc.taints + (if ref.tainted then {va.name} else {}))])
  }

  /**
   * `__delegateToUpperScope`: the reference is pushed onto the upper scope's
   * `__left` (when there is one) and onto this scope's `through`.
   */
  function Delegate(st: State, s: ScopeId, x: RefId): State
    requires Closable(st, s)
  {
    var sc := st.scopes[s];
    var a := st.scopes[s := sc.(through := sc.through + [x])];
    if sc.upper.Some? then
      var u := sc.upper.value;
      st.(scopes := a[u := a[u].(left := Some(a[u].left.value + [x]))])
    else st.(scopes := a)
  }

  /** The upper scope's `__left` with `x` appended. */
  function PushLeft(sc: Scope, x: RefId): Scope
    requires sc.left.Some?
  {
    sc.(left := Some(sc.left.value + [x]))
  }

  lemma ResolveValid(st: State, s: ScopeId, x: RefId)
    requires Valid(st) && Closable(st, s) && x < |st.refs| && CanResolve(st, s, x)
    ensures Valid(Resolve(st, s, x)) && Grows(st, Resolve(st, s, x)) && Local(st, Resolve(st, s, x))
  {
    var ref := st.refs[x];
    var v := Target(st, s, x);
    var r := Resolve(st, s, x);
    ResolveOk(st, s, x, v, r.vars[v].stack, r.vars[v].tainted, r.scopes[s].taints, r);
    ResolveGrows(st, s, x, v, r.vars[v].stack, r.vars[v].tainted, r.scopes[s].taints, r);
  }

  lemma ResolveOk(st: State, s: ScopeId, x: RefId, v: VarId, stack: bool, tainted: bool, taints: set<string>, r: State)
    requires Valid(st) && s < |st.scopes| && x < |st.refs| && v < |st.vars|
    requires r == st.(refs := st.refs[x := st.refs[x].(resolved := Some(v))],
                      vars := st.vars[v := st.vars[v].(references := st.vars[v].references + [x], stack := stack, tainted := tainted)],
                      scopes := st.scopes[s := st.scopes[s].(taints := taints)])
    ensures Valid(r)
  {
    assert ScopeOk(st.scopes, st.vars, |st.refs|, s);
    assert VarOk(|st.scopes|, |st.refs|, st.vars[v]);
    assert RefOk(|st.scopes|, |st.vars|, st.refs[x]);
    assert VarOk(|r.scopes|, |r.refs|, r.vars[v]);
    assert RefOk(|r.scopes|, |r.vars|, r.refs[x]);
    CurrentOpenFrame(st, r);
    ValidFrame(st, r, {}, {v}, {x});
  }

  lemma ResolveGrows(st: State, s: ScopeId, x: RefId, v: VarId, stack: bool, tainted: bool, taints: set<string>, r: State)
    requires s < |st.scopes| && x < |st.refs| && v < |st.vars|
    requires (stack ==> st.vars[v].stack) && (st.vars[v].tainted ==> tainted) && st.scopes[s].taints <= taints
    requires r == st.(refs := st.refs[x := st.refs[x].(resolved := Some(v))],
                      vars := st.vars[v := st.vars[v].(references := st.vars[v].references + [x], stack := stack, tainted := tainted)],
                      scopes := st.scopes[s := st.scopes[s].(taints := taints)])
    ensures Grows(st, r) && Local(st, r)
  {
  }

  lemma DelegateValid(st: State, s: ScopeId, x: RefId)
    requires Valid(st) && Closable(st, s) && x < |st.refs|
    ensures Valid(Delegate(st, s, x)) && Grows(st, Delegate(st, s, x)) && Local(st, Delegate(st, s, x))
  {
    var sc := st.scopes[s];
    var a := st.scopes[s := sc.(through := sc.through + [x])];
    assert ScopeOk(st.scopes, st.vars, |st.refs|, s);
    ScopeListsOk(st, s, a[s]);
    if sc.upper.Some? {
      var u := sc.upper.value;
      assert ScopeOk(st.scopes, st.vars, |st.refs|, u);
      ScopeListsOk(st.(scopes := a), u, PushLeft(a[u], x));
    }
    DelegateGrows(st, s, x);
  }

  lemma DelegateGrows(st: State, s: ScopeId, x: RefId)
    requires Closable(st, s)
    ensures Grows(st, Delegate(st, s, x)) && Local(st, Delegate(st, s, x))
  {
    var r := Delegate(st, s, x);
    forall i | 0 <= i < |st.scopes| ensures ScopeGrows(st.scopes[i], r.scopes[i]) {
      if i == s || (st.scopes[s].upper.Some? && i == st.scopes[s].upper.value) {
        assert r.scopes[i] == st.scopes[i].(through := r.scopes[i].through, left := r.scopes[i].left);
      } else {
        assert r.scopes[i] == st.scopes[i];
      }
    }
  }

  // ---------------------------------------------------------------------
  // The static regime: resolve locally or delegate

  /** One iteration of the static loop of `__close`. */
  function StaticStep(st: State, s: ScopeId, x: RefId): (r: State)
    requires Closable(st, s) && x < |st.refs|
    ensures Kept(st, r)
  {
    if CanResolve(st, s, x) then Resolve(st, s, x) else Delegate(st, s, x)
  }

  /** The static loop of `__close` over the pending references `l`, in order. */
  function CloseStatic(st: State, s: ScopeId, l: seq<RefId>): (r: State)
    requires Closable(st, s) && Below(l, |st.refs|)
    ensures Kept(st, r)
    decreases |l|
  {
    if l == [] then st
    else
      var m := CloseStatic(st, s, l[..|l| - 1]);
      ClosableKept(st, m, s);
      var r := StaticStep(m, s, l[|l| - 1]);
      KeptTrans(st, m, r);
      r
  }

  lemma {:induction false} CloseStaticValid(st: State, s: ScopeId, l: seq<RefId>)
    requires Valid(st) && Closable(st, s) && Below(l, |st.refs|)
    ensures Valid(CloseStatic(st, s, l)) && Grows(st, CloseStatic(st, s, l)) && Local(st, CloseStatic(st, s, l))
    decreases |l|
  {
    if l == [] {
      GrowsRefl(st);
    } else {
      var m := CloseStatic(st, s, l[..|l| - 1]);
      CloseStaticValid(st, s, l[..|l| - 1]);
      ClosableKept(st, m, s);
      var x := l[|l| - 1];
      if CanResolve(m, s, x) { ResolveValid(m, s, x); } else { DelegateValid(m, s, x); }
      GrowsTrans(st, m, CloseStatic(st, s, l));
    }
  }

  /** The references of `l` whose name is not in the scope's `set`, in order. */
  function Unresolved(st: State, s: ScopeId, l: seq<RefId>): seq<RefId>
    requires s < |st.scopes| && Below(l, |st.refs|)
    decreases |l|
  {
    if l == [] then []
    else
      var x := l[|l| - 1];
      Unresolved(st, s, l[..|l| - 1]) + (if CanResolve(st, s, x) then [] else [x])
  }

  /** `Unresolved` keeps exactly the references of `l` that cannot be resolved here. */
  lemma {:induction false} UnresolvedMembers(st: State, s: ScopeId, l: seq<RefId>)
    requires s < |st.scopes| && Below(l, |st.refs|)
    ensures forall x :: x in Unresolved(st, s, l) <==> x in l && !CanResolve(st, s, x)
    decreases |l|
  {
    if l != [] {
      var x := l[|l| - 1];
      assert l == l[..|l| - 1] + [x];
      UnresolvedMembers(st, s, l[..|l| - 1]);
    }
  }

  /**
   * Exactly one way per reference, part one: the references that cannot be
   * resolved here, and only those, are appended to `through`, in their order.
   */
  lemma {:induction false} CloseStaticThrough(st: State, s: ScopeId, l: seq<RefId>)
    requires Closable(st, s) && Below(l, |st.refs|)
    ensures CloseStatic(st, s, l).scopes[s].through == st.scopes[s].through + Unresolved(st, s, l)
    decreases |l|
  {
    if l == [] {
      assert st.scopes[s].through + [] == st.scopes[s].through;
    } else {
      var l', x := l[..|l| - 1], l[|l| - 1];
      CloseStaticThrough(st, s, l');
      var m := CloseStatic(st, s, l');
      CanResolveKept(st, m, s, x);
      ClosableKept(st, m, s);
      StaticStepDelegates(m, s, x);
      var d := if CanResolve(m, s, x) then [] else [x];
      assert (st.scopes[s].through + Unresolved(st, s, l')) + d == st.scopes[s].through + (Unresolved(st, s, l') + d);
    }
  }

  /** ... and the same references, in the same order, are appended to the upper scope's `__left`. */
  lemma {:induction false} CloseStaticLeft(st: State, s: ScopeId, l: seq<RefId>)
    requires Closable(st, s) && Below(l, |st.refs|) && st.scopes[s].upper.Some?
    ensures var u := st.scopes[s].upper.value;
      CloseStatic(st, s, l).scopes[u].left == Some(st.scopes[u].left.value + Unresolved(st, s, l))
    decreases |l|
  {
    var u := st.scopes[s].upper.value;
    if l == [] {
      assert st.scopes[u].left.value + [] == st.scopes[u].left.value;
    } else {
      var l', x := l[..|l| - 1], l[|l| - 1];
      CloseStaticLeft(st, s, l');
      var m := CloseStatic(st, s, l');
      CanResolveKept(st, m, s, x);
      ClosableKept(st, m, s);
      StaticStepDelegates(m, s, x);
      assert ScopeKept(st.scopes[s], m.scopes[s]);
      var d := if CanResolve(m, s, x) then [] else [x];
      assert (st.scopes[u].left.value + Unresolved(st, s, l')) + d == st.scopes[u].left.value + (Unresolved(st, s, l') + d);
    }
  }

  /** One step of the static loop appends `x` to `through` and to the upper `__left` exactly when it is not resolvable. */
  lemma StaticStepDelegates(st: State, s: ScopeId, x: RefId)
    requires Closable(st, s) && x < |st.refs|
    ensures var r := StaticStep(st, s, x);
      var d := if CanResolve(st, s, x) then [] else [x];
      && r.scopes[s].through == st.scopes[s].through + d
      && (st.scopes[s].upper.Some? ==>
            var u := st.scopes[s].upper.value;
            r.scopes[u].left == Some(st.scopes[u].left.value + d))
  {
    if !CanResolve(st, s, x) {
      assert StaticStep(st, s, x) == Delegate(st, s, x);
    } else {
      assert st.scopes[s].through + [] == st.scopes[s].through;
      if st.scopes[s].upper.Some? {
        var u := st.scopes[s].upper.value;
        assert st.scopes[u].left.value + [] == st.scopes[u].left.value;
      }
    }
  }

  /**
   * Exactly one way per reference, part two: the references of `l` whose name
   * is in `set`, and only those, end up resolved to the Variable bound to
   * that name; nothing else about any reference changes.
   */
  lemma {:induction false} CloseStaticResolves(st: State, s: ScopeId, l: seq<RefId>)
    requires Closable(st, s) && Below(l, |st.refs|)
    ensures var r := CloseStatic(st, s, l);
      forall y :: 0 <= y < |st.refs| ==>
        r.refs[y] == st.refs[y].(resolved := if y in l && CanResolve(st, s, y) then Some(Target(st, s, y)) else st.refs[y].resolved)
    decreases |l|
  {
    if l != [] {
      var l', x := l[..|l| - 1], l[|l| - 1];
      assert l == l' + [x];
      CloseStaticResolves(st, s, l');
      var m := CloseStatic(st, s, l');
      ClosableKept(st, m, s);
      StaticStepResolves(m, s, x);
      var r := CloseStatic(st, s, l);
      forall y | 0 <= y < |st.refs|
        ensures r.refs[y] == st.refs[y].(resolved := if y in l && CanResolve(st, s, y) then Some(Target(st, s, y)) else st.refs[y].resolved)
      {
        CanResolveKept(st, m, s, y);
      }
    }
  }

  /** One step of the static loop resolves `x` to its Variable when it can, and changes no other reference. */
  lemma StaticStepResolves(st: State, s: ScopeId, x: RefId)
    requires Closable(st, s) && x < |st.refs|
    ensures var r := StaticStep(st, s, x);
      forall y :: 0 <= y < |st.refs| ==>
        r.refs[y] == if y == x && CanResolve(st, s, x) then st.refs[y].(resolved := Some(Target(st, s, x))) else st.refs[y]
  {
  }

  /** The references of `l` that `__close` resolves to Variable `v`, in order. */
  function ResolvedTo(st: State, s: ScopeId, l: seq<RefId>, v: VarId): (rs: seq<RefId>)
    requires Closable(st, s) && Below(l, |st.refs|)
    ensures Below(rs, |st.refs|)
    decreases |l|
  {
    if l == [] then []
    else
      var x := l[|l| - 1];
      ResolvedTo(st, s, l[..|l| - 1], v) + if CanResolve(st, s, x) && Target(st, s, x) == v then [x] else []
  }

  /** Every reference of `xs` comes from a scope with the closing scope's `variableScope`. */
  predicate AllSameScope(st: State, s: ScopeId, xs: seq<RefId>)
    requires Closable(st, s) && Below(xs, |st.refs|)
  {
    forall i :: 0 <= i < |xs| ==> SameVariableScope(st, s, xs[i])
  }

  /** Some reference of `xs` is tainted. */
  predicate AnyTainted(st: State, xs: seq<RefId>)
    requires Below(xs, |st.refs|)
  {
    exists i :: 0 <= i < |xs| && st.refs[xs[i]].tainted
  }

  /** What a step does to one Variable: only the target of a resolvable `x` changes. */
  lemma StaticStepVariable(st: State, s: ScopeId, x: RefId, v: VarId)
    requires Closable(st, s) && x < |st.refs| && v < |st.vars|
    ensures var r := StaticStep(st, s, x);
      r.vars[v] ==
        if CanResolve(st, s, x) && Target(st, s, x) == v then
          st.vars[v].(references := st.vars[v].references + [x],
                      stack := st.vars[v].stack && SameVariableScope(st, s, x),
                      tainted := st.vars[v].tainted || st.refs[x].tainted)
        else st.vars[v]
  {
  }

  /** `st.vars[v]` after the references `rs` resolved to it. */
  function Recorded(st: State, s: ScopeId, v: VarId, rs: seq<RefId>): Variable
    requires Closable(st, s) && Below(rs, |st.refs|) && v < |st.vars|
  {
    st.vars[v].(references := st.vars[v].references + rs,
                stack := st.vars[v].stack && AllSameScope(st, s, rs),
                tainted := st.vars[v].tainted || AnyTainted(st, rs))
  }

  lemma RecordedAppend(st: State, s: ScopeId, v: VarId, rs: seq<RefId>, x: RefId)
    requires Closable(st, s) && Below(rs, |st.refs|) && v < |st.vars| && x < |st.refs|
    ensures Below(rs + [x], |st.refs|)
    ensures var w := Recorded(st, s, v, rs);
      Recorded(st, s, v, rs + [x]) ==
        w.(references := w.references + [x], stack := w.stack && SameVariableScope(st, s, x), tainted := w.tainted || st.refs[x].tainted)
  {
    var rs' := rs + [x];
    assert forall i :: 0 <= i < |rs| ==> rs'[i] == rs[i];
    assert rs'[|rs|] == x;
    assert (st.vars[v].references + rs) + [x] == st.vars[v].references + rs';
    assert AllSameScope(st, s, rs') == (AllSameScope(st, s, rs) && SameVariableScope(st, s, x));
    assert AnyTainted(st, rs') == (AnyTainted(st, rs) || st.refs[x].tainted);
  }

  lemma SameVariableScopeKept(a: State, b: State, s: ScopeId, x: RefId)
    requires Closable(a, s) && x < |a.refs| && Kept(a, b)
    ensures b.refs[x].from < |b.scopes| && SameVariableScope(b, s, x) == SameVariableScope(a, s, x)
  {
    assert RefKept(a.refs[x], b.refs[x]);
    assert ScopeKept(a.scopes[s], b.scopes[s]);
    assert ScopeKept(a.scopes[a.refs[x].from], b.scopes[a.refs[x].from]);
  }

  /**
   * The static close as seen by one Variable: it records, in order, the
   * references resolved to it; its `stack` flag survives only if all of them
   * come from the same variable scope (so it never turns back to true); it is
   * tainted exactly when it was or one of them is.  Nothing else about it
   * changes.
   */
  lemma {:induction false} CloseStaticVariable(st: State, s: ScopeId, l: seq<RefId>, v: VarId)
    requires Closable(st, s) && Below(l, |st.refs|) && v < |st.vars|
    ensures CloseStatic(st, s, l).vars[v] == Recorded(st, s, v, ResolvedTo(st, s, l, v))
    decreases |l|
  {
    if l == [] {
      assert st.vars[v].references + [] == st.vars[v].references;
    } else {
      var l', x := l[..|l| - 1], l[|l| - 1];
      CloseStaticVariable(st, s, l', v);
      CloseStaticResolves(st, s, l');
      var m := CloseStatic(st, s, l');
      ClosableKept(st, m, s);
      CanResolveKept(st, m, s, x);
      SameVariableScopeKept(st, m, s, x);
      StaticStepVariable(m, s, x, v);
      var rs' := ResolvedTo(st, s, l', v);
      assert m.refs[x].tainted == st.refs[x].tainted;
      if CanResolve(st, s, x) && Target(st, s, x) == v {
        RecordedAppend(st, s, v, rs', x);
      } else {
        assert ResolvedTo(st, s, l, v) == rs';
      }
    }
  }

  /** The names of the Variables that tainted references of `l` resolve to. */
  ghost function TaintedNames(st: State, s: ScopeId, l: seq<RefId>): set<string>
    requires Closable(st, s) && Below(l, |st.refs|)
  {
    set i | 0 <= i < |l| && CanResolve(st, s, l[i]) && st.refs[l[i]].tainted :: st.vars[Target(st, s, l[i])].name
  }

  lemma TaintedNamesAppend(st: State, s: ScopeId, l: seq<RefId>)
    requires Closable(st, s) && Below(l, |st.refs|) && l != []
    ensures var l', x := l[..|l| - 1], l[|l| - 1];
      TaintedNames(st, s, l) ==
        TaintedNames(st, s, l') + if CanResolve(st, s, x) && st.refs[x].tainted then {st.vars[Target(st, s, x)].name} else {}
  {
    var l' := l[..|l| - 1];
    assert forall i :: 0 <= i < |l'| ==> l[i] == l'[i];
  }

  /** One step of the static loop taints a name only for a resolvable tainted `x`, and touches only the scope and its upper scope. */
  lemma StaticStepScopes(st: State, s: ScopeId, x: RefId)
    requires Closable(st, s) && x < |st.refs|
    ensures var r := StaticStep(st, s, x);
      && r.scopes[s].taints == st.scopes[s].taints +
           (if CanResolve(st, s, x) && st.refs[x].tainted then {st.vars[Target(st, s, x)].name} else {})
      && forall i :: 0 <= i < |st.scopes| && i != s && Some(i) != st.scopes[s].upper ==> r.scopes[i] == st.scopes[i]
  {
  }

  /**
   * The static close as seen by the closing scope: `taints` gains exactly the
   * names of the Variables that tainted references resolve to.
   */
  lemma {:induction false} CloseStaticTaints(st: State, s: ScopeId, l: seq<RefId>)
    requires Closable(st, s) && Below(l, |st.refs|)
    ensures CloseStatic(st, s, l).scopes[s].taints == st.scopes[s].taints + TaintedNames(st, s, l)
    decreases |l|
  {
    if l != [] {
      var l', x := l[..|l| - 1], l[|l| - 1];
      CloseStaticTaints(st, s, l');
      CloseStaticResolves(st, s, l');
      var m := CloseStatic(st, s, l');
      ClosableKept(st, m, s);
      CanResolveKept(st, m, s, x);
      StaticStepScopes(m, s, x);
      TaintedNamesAppend(st, s, l);
      assert m.refs[x].tainted == st.refs[x].tainted;
      if CanResolve(st, s, x) {
        CloseStaticVariable(st, s, l', Target(st, s, x));
      }
    }
  }

  /** No scope other than the closing scope and its upper scope changes. */
  lemma {:induction false} CloseStaticOthers(st: State, s: ScopeId, l: seq<RefId>)
    requires Closable(st, s) && Below(l, |st.refs|)
    ensures var r := CloseStatic(st, s, l);
      forall i :: 0 <= i < |st.scopes| && i != s && Some(i) != st.scopes[s].upper ==> r.scopes[i] == st.scopes[i]
    decreases |l|
  {
    if l != [] {
      var l', x := l[..|l| - 1], l[|l| - 1];
      CloseStaticOthers(st, s, l');
      var m := CloseStatic(st, s, l');
      ClosableKept(st, m, s);
      assert ScopeKept(st.scopes[s], m.scopes[s]);
      StaticStepScopes(m, s, x);
    }
  }

  // ---------------------------------------------------------------------
  // The `with` regime: taint and delegate everything

  /** `ref.tainted = true`. */
  function TaintRef(st: State, x: RefId): State
    requires x < |st.refs|
  {
    st.(refs := st.refs[x := st.refs[x].(tainted := true)])
  }

  /** One iteration of the `with` loop of `__close`. */
  function WithStep(st: State, s: ScopeId, x: RefId): (r: State)
    requires Closable(st, s) && x < |st.refs|
    ensures Kept(st, r)
  {
    var t := TaintRef(st, x);
    assert Kept(st, t);
    ClosableKept(st, t, s);
    var r := Delegate(t, s, x);
    KeptTrans(st, t, r);
    r
  }

  /** The `with` loop of `__close` over the pending references `l`. */
  function CloseWith(st: State, s: ScopeId, l: seq<RefId>): (r: State)
    requires Closable(st, s) && Below(l, |st.refs|)
    ensures Kept(st, r)
    decreases |l|
  {
    if l == [] then st
    else
      var m := CloseWith(st, s, l[..|l| - 1]);
      ClosableKept(st, m, s);
      var r := WithStep(m, s, l[|l| - 1]);
      KeptTrans(st, m, r);
      r
  }

  lemma TaintRefValid(st: State, x: RefId)
    requires Valid(st) && x < |st.refs|
    ensures Valid(TaintRef(st, x)) && Grows(st, TaintRef(st, x)) && Local(st, TaintRef(st, x))
  {
    var r := TaintRef(st, x);
    CurrentOpenFrame(st, r);
    ValidFrame(st, r, {}, {}, {});
  }

  lemma WithStepValid(st: State, s: ScopeId, x: RefId)
    requires Valid(st) && Closable(st, s) && x < |st.refs|
    ensures Valid(WithStep(st, s, x)) && Grows(st, WithStep(st, s, x)) && Local(st, WithStep(st, s, x))
  {
    var t := TaintRef(st, x);
    TaintRefValid(st, x);
    assert Kept(st, t);
    ClosableKept(st, t, s);
    DelegateValid(t, s, x);
    GrowsTrans(st, t, WithStep(st, s, x));
  }

  lemma {:induction false} CloseWithValid(st: State, s: ScopeId, l: seq<RefId>)
    requires Valid(st) && Closable(st, s) && Below(l, |st.refs|)
    ensures Valid(CloseWith(st, s, l)) && Grows(st, CloseWith(st, s, l)) && Local(st, CloseWith(st, s, l))
    decreases |l|
  {
    if l == [] {
      GrowsRefl(st);
    } else {
      var m := CloseWith(st, s, l[..|l| - 1]);
      CloseWithValid(st, s, l[..|l| - 1]);
      ClosableKept(st, m, s);
      WithStepValid(m, s, l[|l| - 1]);
      GrowsTrans(st, m, CloseWith(st, s, l));
    }
  }

  /** One step of the `with` loop appends `x` to `through` and to the upper `__left`. */
  lemma WithStepThrough(st: State, s: ScopeId, x: RefId)
    requires Closable(st, s) && x < |st.refs|
    ensures var r := WithStep(st, s, x);
      && r.scopes[s].through == st.scopes[s].through + [x]
      && (st.scopes[s].upper.Some? ==>
            var u := st.scopes[s].upper.value;
            r.scopes[u].left == Some(st.scopes[u].left.value + [x]))
  {
    var t := TaintRef(st, x);
    assert t.scopes == st.scopes;
    assert WithStep(st, s, x) == Delegate(t, s, x);
  }

  /** Closing a `with` scope delegates every pending reference, in order, even one whose name is bound here. */
  lemma {:induction false} CloseWithThrough(st: State, s: ScopeId, l: seq<RefId>)
    requires Closable(st, s) && Below(l, |st.refs|)
    ensures CloseWith(st, s, l).scopes[s].through == st.scopes[s].through + l
    ensures st.scopes[s].upper.Some? ==>
      var u := st.scopes[s].upper.value;
      CloseWith(st, s, l).scopes[u].left == Some(st.scopes[u].left.value + l)
    decreases |l|
  {
    if l == [] {
      assert st.scopes[s].through + [] == st.scopes[s].through;
      if st.scopes[s].upper.Some? {
        var u := st.scopes[s].upper.value;
        assert st.scopes[u].left.value + [] == st.scopes[u].left.value;
      }
    } else {
      var l', x := l[..|l| - 1], l[|l| - 1];
      assert l == l' + [x];
      CloseWithThrough(st, s, l');
      var m := CloseWith(st, s, l');
      ClosableKept(st, m, s);
      WithStepThrough(m, s, x);
      assert ScopeKept(st.scopes[s], m.scopes[s]);
      assert (st.scopes[s].through + l') + [x] == st.scopes[s].through + l;
      if st.scopes[s].upper.Some? {
        var u := st.scopes[s].upper.value;
        assert (st.scopes[u].left.value + l') + [x] == st.scopes[u].left.value + l;
      }
    }
  }

  /** One step of the `with` loop taints `x` and changes no other reference and no Variable. */
  lemma WithStepTaints(st: State, s: ScopeId, x: RefId)
    requires Closable(st, s) && x < |st.refs|
    ensures WithStep(st, s, x).vars == st.vars
    ensures WithStep(st, s, x).refs == st.refs[x := st.refs[x].(tainted := true)]
  {
  }

  /**
   * Closing a `with` scope resolves nothing and leaves the Variables alone;
   * exactly the pending references become tainted.
   */
  lemma {:induction false} CloseWithTaints(st: State, s: ScopeId, l: seq<RefId>)
    requires Closable(st, s) && Below(l, |st.refs|)
    ensures var r := CloseWith(st, s, l);
      && r.vars == st.vars
      && forall y :: 0 <= y < |st.refs| ==>
           r.refs[y] == st.refs[y].(tainted := st.refs[y].tainted || y in l)
    decreases |l|
  {
    if l != [] {
      var l', x := l[..|l| - 1], l[|l| - 1];
      assert l == l' + [x];
      CloseWithTaints(st, s, l');
      var m := CloseWith(st, s, l');
      ClosableKept(st, m, s);
      WithStepTaints(m, s, x);
    }
  }

  // ---------------------------------------------------------------------
  // The dynamic regime: every pending reference goes through the whole chain

  /** `c` and the scopes on its `upper` chain, up to the root. */
  ghost function Ancestors(st: State, c: ScopeId): set<ScopeId>
    requires c < |st.scopes| && UppersBelow(st)
    decreases c
  {
    {c} + if st.scopes[c].upper.Some? then Ancestors(st, st.scopes[c].upper.value) else {}
  }

  lemma {:induction false} AncestorsBelow(st: State, c: ScopeId)
    requires c < |st.scopes| && UppersBelow(st)
    ensures forall i :: i in Ancestors(st, c) ==> i <= c
    decreases c
  {
    if st.scopes[c].upper.Some? {
      AncestorsBelow(st, st.scopes[c].upper.value);
    }
  }

  lemma {:induction false} AncestorsKept(a: State, b: State, c: ScopeId)
    requires c < |a.scopes| && UppersBelow(a) && UppersBelow(b) && Kept(a, b)
    ensures Ancestors(b, c) == Ancestors(a, c)
    decreases c
  {
    assert ScopeKept(a.scopes[c], b.scopes[c]);
    if a.scopes[c].upper.Some? {
      AncestorsKept(a, b, a.scopes[c].upper.value);
    }
  }

  lemma UppersKept(a: State, b: State)
    requires UppersBelow(a) && Kept(a, b)
    ensures UppersBelow(b)
  {
    forall i | 0 <= i < |b.scopes| && b.scopes[i].upper.Some? ensures b.scopes[i].upper.value < i {
      assert ScopeKept(a.scopes[i], b.scopes[i]);
    }
  }

  /** `c.through.push(ref)` alone. */
  function PushThrough(st: State, c: ScopeId, x: RefId): (r: State)
    requires c < |st.scopes|
    ensures Kept(st, r)
  {
    var r := st.(scopes := st.scopes[c := st.scopes[c].(through := st.scopes[c].through + [x])]);
    assert forall i :: 0 <= i < |st.scopes| ==> ScopeKept(st.scopes[i], r.scopes[i]);
    assert forall y :: 0 <= y < |st.refs| ==> RefKept(st.refs[y], r.refs[y]);
    r
  }

  /** The `do … while (current)` loop: `x` is pushed onto `through` of `c` and of every scope above it. */
  function ThroughChain(st: State, c: ScopeId, x: RefId): (r: State)
    requires c < |st.scopes| && UppersBelow(st)
    ensures Kept(st, r)
    decreases c
  {
    var t := PushThrough(st, c, x);
    UppersKept(st, t);
    assert ScopeKept(st.scopes[c], t.scopes[c]);
    if st.scopes[c].upper.Some? then
      var r := ThroughChain(t, st.scopes[c].upper.value, x);
      KeptTrans(st, t, r);
      r
    else t
  }

  /** The dynamic loop of `__close` over the pending references `l`. */
  function CloseDynamic(st: State, s: ScopeId, l: seq<RefId>): (r: State)
    requires Closable(st, s)
    ensures Kept(st, r)
    decreases |l|
  {
    if l == [] then st
    else
      var m := CloseDynamic(st, s, l[..|l| - 1]);
      ClosableKept(st, m, s);
      var r := ThroughChain(m, s, l[|l| - 1]);
      KeptTrans(st, m, r);
      r
  }

  lemma PushThroughValid(st: State, c: ScopeId, x: RefId)
    requires Valid(st) && c < |st.scopes| && x < |st.refs|
    ensures Valid(PushThrough(st, c, x)) && Grows(st, PushThrough(st, c, x)) && Local(st, PushThrough(st, c, x))
  {
    var sc := st.scopes[c];
    assert ScopeOk(st.scopes, st.vars, |st.refs|, c);
    ScopeListsOk(st, c, sc.(through := sc.through + [x]));
    PushThroughGrows(st, c, x);
  }

  lemma PushThroughGrows(st: State, c: ScopeId, x: RefId)
    requires c < |st.scopes|
    ensures Grows(st, PushThrough(st, c, x)) && Local(st, PushThrough(st, c, x))
  {
    var sc := st.scopes[c];
    var r := PushThrough(st, c, x);
    forall i | 0 <= i < |st.scopes| ensures ScopeGrows(st.scopes[i], r.scopes[i]) {
      if i == c {
        assert r.scopes[i] == sc.(through := sc.through + [x]);
      } else {
        assert r.scopes[i] == st.scopes[i];
      }
    }
  }

  lemma {:induction false} ThroughChainValid(st: State, c: ScopeId, x: RefId)
    requires Valid(st) && c < |st.scopes| && UppersBelow(st) && x < |st.refs|
    ensures Valid(ThroughChain(st, c, x)) && Grows(st, ThroughChain(st, c, x)) && Local(st, ThroughChain(st, c, x))
    decreases c
  {
    var t := PushThrough(st, c, x);
    PushThroughValid(st, c, x);
    UppersKept(st, t);
    assert ScopeKept(st.scopes[c], t.scopes[c]);
    if st.scopes[c].upper.Some? {
      ThroughChainValid(t, st.scopes[c].upper.value, x);
      GrowsTrans(st, t, ThroughChain(st, c, x));
    }
  }

  lemma {:induction false} CloseDynamicValid(st: State, s: ScopeId, l: seq<RefId>)
    requires Valid(st) && Closable(st, s) && Below(l, |st.refs|)
    ensures Valid(CloseDynamic(st, s, l)) && Grows(st, CloseDynamic(st, s, l)) && Local(st, CloseDynamic(st, s, l))
    decreases |l|
  {
    if l == [] {
      GrowsRefl(st);
    } else {
      var m := CloseDynamic(st, s, l[..|l| - 1]);
      CloseDynamicValid(st, s, l[..|l| - 1]);
      ClosableKept(st, m, s);
      ThroughChainValid(m, s, l[|l| - 1]);
      GrowsTrans(st, m, CloseDynamic(st, s, l));
    }
  }

  /** `st` with `d` appended to `through` of every scope of `on`. */
  ghost predicate ThroughAdded(st: State, r: State, on: set<ScopeId>, d: seq<RefId>)
  {
    && |r.scopes| == |st.scopes| && r.vars == st.vars && r.refs == st.refs
    && r.current == st.current && r.globalScope == st.globalScope && r.nodeToScope == st.nodeToScope
    && forall i :: 0 <= i < |st.scopes| ==>
         r.scopes[i] == st.scopes[i].(through := st.scopes[i].through + if i in on then d else [])
  }

  lemma {:induction false} ThroughChainAdds(st: State, c: ScopeId, x: RefId)
    requires c < |st.scopes| && UppersBelow(st)
    ensures ThroughAdded(st, ThroughChain(st, c, x), Ancestors(st, c), [x])
    decreases c
  {
    var t := PushThrough(st, c, x);
    UppersKept(st, t);
    var r := ThroughChain(st, c, x);
    assert ScopeKept(st.scopes[c], t.scopes[c]);
    if st.scopes[c].upper.Some? {
      var u := st.scopes[c].upper.value;
      ThroughChainAdds(t, u, x);
      AncestorsKept(st, t, u);
      AncestorsBelow(st, u);
      forall i | 0 <= i < |st.scopes|
        ensures r.scopes[i] == st.scopes[i].(through := st.scopes[i].through + if i in Ancestors(st, c) then [x] else [])
      {
        if i == c {
          assert i !in Ancestors(st, u);
        } else {
          assert t.scopes[i] == st.scopes[i];
        }
      }
    } else {
      forall i | 0 <= i < |st.scopes|
        ensures r.scopes[i] == st.scopes[i].(through := st.scopes[i].through + if i in Ancestors(st, c) then [x] else [])
      {
        if i != c {
          assert st.scopes[i].through + [] == st.scopes[i].through;
        }
      }
    }
  }

  /**
   * Closing a dynamic scope that is not a `with` scope resolves nothing and
   * appends the pending references, in order, to `through` of the scope and of
   * every scope above it; nothing else changes.
   */
  lemma {:induction false} CloseDynamicThrough(st: State, s: ScopeId, l: seq<RefId>)
    requires Closable(st, s)
    ensures ThroughAdded(st, CloseDynamic(st, s, l), Ancestors(st, s), l)
    decreases |l|
  {
    var r := CloseDynamic(st, s, l);
    var on := Ancestors(st, s);
    if l == [] {
      assert r == st;
      forall i | 0 <= i < |st.scopes| ensures r.scopes[i] == st.scopes[i].(through := st.scopes[i].through + if i in on then l else []) {
        assert st.scopes[i].through + [] == st.scopes[i].through;
      }
    } else {
      var l', x := l[..|l| - 1], l[|l| - 1];
      assert l == l' + [x];
      CloseDynamicThrough(st, s, l');
      var m := CloseDynamic(st, s, l');
      ClosableKept(st, m, s);
      ThroughChainAdds(m, s, x);
      AncestorsKept(st, m, s);
      ThroughAddedTrans(st, m, r, on, l', [x]);
    }
  }

  lemma ThroughAddedTrans(a: State, b: State, c: State, on: set<ScopeId>, d: seq<RefId>, e: seq<RefId>)
    requires ThroughAdded(a, b, on, d) && ThroughAdded(b, c, on, e)
    ensures ThroughAdded(a, c, on, d + e)
  {
    forall i | 0 <= i < |a.scopes| ensures c.scopes[i] == a.scopes[i].(through := a.scopes[i].through + if i in on then d + e else []) {
      if i in on {
        assert (a.scopes[i].through + d) + e == a.scopes[i].through + (d + e);
      } else {
        assert (a.scopes[i].through + []) + [] == a.scopes[i].through + [];
      }
    }
  }

  // ---------------------------------------------------------------------
  // The global scope: implicit globals

  /**
   * The `implicit` list built when the global scope closes: the
   * implicit-global information of the pending references that carry it and
   * whose name is not in `set`, in order.
   */
  function ImplicitTargets(st: State, s: ScopeId, l: seq<RefId>): seq<ImplicitInfo>
    requires s < |st.scopes| && Below(l, |st.refs|)
    decreases |l|
  {
    if l == [] then []
    else
      var x := l[|l| - 1];
      var ref := st.refs[x];
      ImplicitTargets(st, s, l[..|l| - 1]) +
        if ref.maybeImplicitGlobal.Some? && !CanResolve(st, s, x) then [ref.maybeImplicitGlobal.value] else []
  }

  /** The Definition of an implicit global: `new Definition(ImplicitGlobalVariable, info.pattern, info.node, null, null, null)`. */
  function ImplicitDef(info: ImplicitInfo): Definition
  {
    Definition(ImplicitGlobalDef, Some(info.pattern), info.node, None, None, None)
  }

  /** The second loop of the global close: `__defineImplicit(info.pattern, …)` for each entry, in order. */
  function DefineImplicits(st: State, s: ScopeId, infos: seq<ImplicitInfo>): (r: State)
    requires Valid(st) && s < |st.scopes| && st.scopes[s].implicit.Some?
    ensures Valid(r) && Grows(st, r) && Local(st, r) && r.refs == st.refs && r.scopes[s].implicit.Some?
    decreases |infos|
  {
    if infos == [] then GrowsRefl(st); st
    else
      var m := DefineImplicits(st, s, infos[..|infos| - 1]);
      var info := infos[|infos| - 1];
      var r := DefineImplicit(m, s, Some(info.pattern), ImplicitDef(info));
      GrowsTrans(st, m, r);
      r
  }

  /** The names the implicit-global patterns of `infos` bind (a non-Identifier pattern binds none). */
  ghost function PatternNames(infos: seq<ImplicitInfo>): set<string>
    decreases |infos|
  {
    if infos == [] then {}
    else
      var p := infos[|infos| - 1].pattern;
      PatternNames(infos[..|infos| - 1]) + if p.Ident? then {p.name} else {}
  }

  /** One `__defineImplicit` touches only the implicit table of `s`, which gains the pattern's name if it is an Identifier. */
  lemma DefineImplicitStep(st: State, s: ScopeId, info: ImplicitInfo)
    requires Valid(st) && s < |st.scopes| && st.scopes[s].implicit.Some?
    ensures var r := DefineImplicit(st, s, Some(info.pattern), ImplicitDef(info));
      && r.scopes[s].implicit.Some?
      && r.scopes[s] == st.scopes[s].(implicit := r.scopes[s].implicit)
      && r.scopes[s].implicit.value.names.Keys ==
           st.scopes[s].implicit.value.names.Keys + (if info.pattern.Ident? then {info.pattern.name} else {})
      && r.scopes[s].implicit.value.left == st.scopes[s].implicit.value.left
      && forall i :: 0 <= i < |st.scopes| && i != s ==> r.scopes[i] == st.scopes[i]
  {
    var r := DefineImplicit(st, s, Some(info.pattern), ImplicitDef(info));
    if info.pattern.Ident? {
      var t := st.scopes[s].implicit.value.names;
      var t' := r.scopes[s].implicit.value.names;
      if info.pattern.name !in t {
        assert t' == t[info.pattern.name := |st.vars|];
      }
    }
  }

  /**
   * Implicit globals go only into `implicit`: `set`, `variables` and every
   * other scope stay as they were.
   */
  lemma {:induction false} DefineImplicitsFrame(st: State, s: ScopeId, infos: seq<ImplicitInfo>)
    requires Valid(st) && s < |st.scopes| && st.scopes[s].implicit.Some?
    ensures var r := DefineImplicits(st, s, infos);
      && r.scopes[s] == st.scopes[s].(implicit := r.scopes[s].implicit)
      && r.scopes[s].implicit.value.left == st.scopes[s].implicit.value.left
      && forall i :: 0 <= i < |st.scopes| && i != s ==> r.scopes[i] == st.scopes[i]
    decreases |infos|
  {
    if infos != [] {
      var infos' := infos[..|infos| - 1];
      DefineImplicitsFrame(st, s, infos');
      DefineImplicitStep(DefineImplicits(st, s, infos'), s, infos[|infos| - 1]);
    }
  }

  /** The implicit table gains exactly the names the patterns bind. */
  lemma {:induction false} DefineImplicitsNames(st: State, s: ScopeId, infos: seq<ImplicitInfo>)
    requires Valid(st) && s < |st.scopes| && st.scopes[s].implicit.Some?
    ensures DefineImplicits(st, s, infos).scopes[s].implicit.value.names.Keys ==
      st.scopes[s].implicit.value.names.Keys + PatternNames(infos)
    decreases |infos|
  {
    if infos != [] {
      var infos', info := infos[..|infos| - 1], infos[|infos| - 1];
      DefineImplicitsNames(st, s, infos');
      DefineImplicitStep(DefineImplicits(st, s, infos'), s, info);
    }
  }

  /** An entry is in the `implicit` list exactly when some pending reference carries it and cannot be resolved here. */
  lemma {:induction false} ImplicitTargetsMembers(st: State, s: ScopeId, l: seq<RefId>)
    requires s < |st.scopes| && Below(l, |st.refs|)
    ensures forall info :: info in ImplicitTargets(st, s, l) <==>
      exists i :: 0 <= i < |l| && st.refs[l[i]].maybeImplicitGlobal == Some(info) && !CanResolve(st, s, l[i])
    decreases |l|
  {
    if l != [] {
      var l', x := l[..|l| - 1], l[|l| - 1];
      ImplicitTargetsMembers(st, s, l');
      assert forall i :: 0 <= i < |l'| ==> l[i] == l'[i];
      forall info | exists i :: 0 <= i < |l| && st.refs[l[i]].maybeImplicitGlobal == Some(info) && !CanResolve(st, s, l[i])
        ensures info in ImplicitTargets(st, s, l)
      {
        var i :| 0 <= i < |l| && st.refs[l[i]].maybeImplicitGlobal == Some(info) && !CanResolve(st, s, l[i]);
        if i < |l'| { assert l'[i] == l[i]; }
      }
      forall info | info in ImplicitTargets(st, s, l)
        ensures exists i :: 0 <= i < |l| && st.refs[l[i]].maybeImplicitGlobal == Some(info) && !CanResolve(st, s, l[i])
      {
        if info in ImplicitTargets(st, s, l') {
          var i :| 0 <= i < |l'| && st.refs[l'[i]].maybeImplicitGlobal == Some(info) && !CanResolve(st, s, l'[i]);
          assert l[i] == l'[i];
        } else {
          assert st.refs[l[|l| - 1]].maybeImplicitGlobal == Some(info) && !CanResolve(st, s, l[|l| - 1]);
        }
      }
    }
  }

  /** What the global close adds: the implicit globals, and `implicit.left` set to the pending list. */
  function GlobalClose(st: State, s: ScopeId, l: seq<RefId>): State
    requires Valid(st) && s < |st.scopes| && st.scopes[s].implicit.Some? && Below(l, |st.refs|)
  {
    SetImplicitLeft(DefineImplicits(st, s, ImplicitTargets(st, s, l)), s, l)
  }

  // ---------------------------------------------------------------------
  // __close

  /** The resolution loop of `__close`, in the regime the scope and the options select. */
  function Regime(st: State, s: ScopeId, optimistic: bool): (r: State)
    requires Valid(st) && st.current == Some(s)
    ensures Kept(st, r)
  {
    ValidClosable(st, s);
    assert ScopeOk(st.scopes, st.vars, |st.refs|, s);
    var sc := st.scopes[s];
    if !sc.dynamic || optimistic then CloseStatic(st, s, sc.left.value)
    else if sc.scopeType == WithScope then CloseWith(st, s, sc.left.value)
    else CloseDynamic(st, s, sc.left.value)
  }

  lemma RegimeValid(st: State, s: ScopeId, optimistic: bool)
    requires Valid(st) && st.current == Some(s)
    ensures Valid(Regime(st, s, optimistic)) && Grows(st, Regime(st, s, optimistic)) && Local(st, Regime(st, s, optimistic))
  {
    ValidClosable(st, s);
    assert ScopeOk(st.scopes, st.vars, |st.refs|, s);
    var sc := st.scopes[s];
    if !sc.dynamic || optimistic {
      CloseStaticValid(st, s, sc.left.value);
    } else if sc.scopeType == WithScope {
      CloseWithValid(st, s, sc.left.value);
    } else {
      CloseDynamicValid(st, s, sc.left.value);
    }
  }

  /** `this.__left = null; scopeManager.__currentScope = this.upper`. */
  function Finish(st: State, s: ScopeId): State
    requires s < |st.scopes|
  {
    st.(scopes := st.scopes[s := st.scopes[s].(left := None)], current := st.scopes[s].upper)
  }

  /**
   * `__close` of the current scope `s`: the regime's loop, then for the
   * global scope its implicit globals, then the scope is closed and its upper
   * scope becomes current.
   */
  function Close(st: State, s: ScopeId, optimistic: bool): State
    requires Valid(st) && st.current == Some(s)
  {
    ValidClosable(st, s);
    assert ScopeOk(st.scopes, st.vars, |st.refs|, s);
    var l := st.scopes[s].left.value;
    var m := Regime(st, s, optimistic);
    RegimeValid(st, s, optimistic);
    var g := if st.scopes[s].scopeType == GlobalScope then
               assert ScopeGrows(st.scopes[s], m.scopes[s]);
               assert ScopeOk(m.scopes, m.vars, |m.refs|, s);
               GlobalClose(m, s, l)
             else m;
    Finish(g, s)
  }

  lemma FinishValid(st: State, s: ScopeId)
    requires Valid(st) && st.current == Some(s)
    ensures Valid(Finish(st, s))
  {
    var r := Finish(st, s);
    assert ScopeOk(st.scopes, st.vars, |st.refs|, s);
    assert ChainOpen(st.scopes, s);
    if st.scopes[s].upper.Some? {
      ChainOpenFrame(st.scopes, r.scopes, st.scopes[s].upper.value);
    }
    ValidFrame(st, r, {}, {}, {});
  }

  lemma FinishGrows(st: State, s: ScopeId)
    requires s < |st.scopes|
    ensures Grows(st, Finish(st, s))
  {
    var r := Finish(st, s);
    forall i | 0 <= i < |st.scopes| ensures ScopeGrows(st.scopes[i], r.scopes[i]) {
      if i == s {
        assert r.scopes[i] == st.scopes[i].(left := None);
      } else {
        assert r.scopes[i] == st.scopes[i];
      }
    }
  }

  /** `implicit.left = this.__left` alone. */
  function SetImplicitLeft(st: State, s: ScopeId, l: seq<RefId>): State
    requires s < |st.scopes| && st.scopes[s].implicit.Some?
  {
    var sc := st.scopes[s];
    st.(scopes := st.scopes[s := sc.(implicit := Some(sc.implicit.value.(left := l)))])
  }

  lemma SetImplicitLeftValid(st: State, s: ScopeId, l: seq<RefId>)
    requires Valid(st) && s < |st.scopes| && st.scopes[s].implicit.Some? && Below(l, |st.refs|)
    ensures Valid(SetImplicitLeft(st, s, l))
  {
    var sc := st.scopes[s];
    assert ScopeOk(st.scopes, st.vars, |st.refs|, s);
    ScopeListsOk(st, s, sc.(implicit := Some(sc.implicit.value.(left := l))));
  }

  lemma SetImplicitLeftGrows(st: State, s: ScopeId, l: seq<RefId>)
    requires s < |st.scopes| && st.scopes[s].implicit.Some?
    ensures Grows(st, SetImplicitLeft(st, s, l)) && Local(st, SetImplicitLeft(st, s, l))
  {
    var r := SetImplicitLeft(st, s, l);
    forall i | 0 <= i < |st.scopes| ensures ScopeGrows(st.scopes[i], r.scopes[i]) {
      if i == s {
        assert r.scopes[i] == st.scopes[i].(implicit := r.scopes[i].implicit);
      } else {
        assert r.scopes[i] == st.scopes[i];
      }
    }
  }

  lemma GlobalCloseValid(st: State, s: ScopeId, l: seq<RefId>)
    requires Valid(st) && s < |st.scopes| && st.scopes[s].implicit.Some? && Below(l, |st.refs|)
    ensures Valid(GlobalClose(st, s, l)) && Grows(st, GlobalClose(st, s, l)) && Local(st, GlobalClose(st, s, l))
  {
    var d := DefineImplicits(st, s, ImplicitTargets(st, s, l));
    SetImplicitLeftValid(d, s, l);
    SetImplicitLeftGrows(d, s, l);
    GrowsTrans(st, d, GlobalClose(st, s, l));
  }

  /**
   * `__close` leaves the scope closed and makes its upper scope current, and
   * it keeps the arena invariant.
   */
  lemma CloseValid(st: State, s: ScopeId, optimistic: bool)
    requires Valid(st) && st.current == Some(s)
    ensures var r := Close(st, s, optimistic);
      && Valid(r) && Grows(st, r)
      && r.scopes[s].left.None? && r.current == st.scopes[s].upper
  {
    ValidClosable(st, s);
    assert ScopeOk(st.scopes, st.vars, |st.refs|, s);
    var l := st.scopes[s].left.value;
    var m := Regime(st, s, optimistic);
    RegimeValid(st, s, optimistic);
    var g := m;
    if st.scopes[s].scopeType == GlobalScope {
      assert ScopeGrows(st.scopes[s], m.scopes[s]);
      assert ScopeOk(m.scopes, m.vars, |m.refs|, s);
      GlobalCloseValid(m, s, l);
      g := GlobalClose(m, s, l);
      GrowsTrans(st, m, g);
    }
    assert ScopeGrows(st.scopes[s], g.scopes[s]);
    FinishValid(g, s);
    FinishGrows(g, s);
    GrowsTrans(st, g, Close(st, s, optimistic));
  }

  /** One `__defineImplicit` keeps the references, `stack` and taint of every existing Variable. */
  lemma DefineImplicitUse(st: State, s: ScopeId, info: ImplicitInfo)
    requires Valid(st) && s < |st.scopes| && st.scopes[s].implicit.Some?
    ensures var r := DefineImplicit(st, s, Some(info.pattern), ImplicitDef(info));
      forall v :: 0 <= v < |st.vars| ==> SameUse(st.vars[v], r.vars[v])
  {
  }

  /** What resolution records on a Variable. */
  ghost predicate SameUse(x: Variable, y: Variable)
  {
    y.references == x.references && y.stack == x.stack && y.tainted == x.tainted
  }

  lemma {:induction false} DefineImplicitsUse(st: State, s: ScopeId, infos: seq<ImplicitInfo>)
    requires Valid(st) && s < |st.scopes| && st.scopes[s].implicit.Some?
    ensures var r := DefineImplicits(st, s, infos);
      forall v :: 0 <= v < |st.vars| ==> SameUse(st.vars[v], r.vars[v])
    decreases |infos|
  {
    if infos != [] {
      var infos' := infos[..|infos| - 1];
      DefineImplicitsUse(st, s, infos');
      var m := DefineImplicits(st, s, infos');
      DefineImplicitUse(m, s, infos[|infos| - 1]);
    }
  }

  /**
   * After the regime's loop, `__close` changes no reference, no `through`,
   * no scope but the closing one, and of the Variables only the implicit
   * globals' definitions and identifiers.
   */
  lemma CloseAfterRegime(st: State, s: ScopeId, optimistic: bool)
    requires Valid(st) && st.current == Some(s)
    ensures var m := Regime(st, s, optimistic);
      var r := Close(st, s, optimistic);
      && r.refs == m.refs && |r.scopes| == |m.scopes| && |r.vars| >= |m.vars|
      && r.scopes[s].through == m.scopes[s].through && r.scopes[s].taints == m.scopes[s].taints
      && (forall i :: 0 <= i < |m.scopes| && i != s ==> r.scopes[i] == m.scopes[i])
      && (forall v :: 0 <= v < |m.vars| ==> SameUse(m.vars[v], r.vars[v]))
  {
    var l := Pending(st, s);
    var m := Regime(st, s, optimistic);
    RegimeValid(st, s, optimistic);
    if st.scopes[s].scopeType == GlobalScope {
      assert ScopeGrows(st.scopes[s], m.scopes[s]);
      assert ScopeOk(m.scopes, m.vars, |m.refs|, s);
      GlobalCloseFrame(m, s, l);
      var g := GlobalClose(m, s, l);
      assert Close(st, s, optimistic) == Finish(g, s);
    } else {
      assert Close(st, s, optimistic) == Finish(m, s);
    }
  }

  /** The global close changes no reference, no `through` or `taints`, no other scope, and no Variable's use. */
  lemma GlobalCloseFrame(st: State, s: ScopeId, l: seq<RefId>)
    requires Valid(st) && s < |st.scopes| && st.scopes[s].implicit.Some? && Below(l, |st.refs|)
    ensures var r := GlobalClose(st, s, l);
      && r.refs == st.refs && |r.scopes| == |st.scopes| && |r.vars| >= |st.vars|
      && r.scopes[s].through == st.scopes[s].through && r.scopes[s].taints == st.scopes[s].taints
      && (forall i :: 0 <= i < |st.scopes| && i != s ==> r.scopes[i] == st.scopes[i])
      && (forall v :: 0 <= v < |st.vars| ==> SameUse(st.vars[v], r.vars[v]))
  {
    var infos := ImplicitTargets(st, s, l);
    DefineImplicitsFrame(st, s, infos);
    DefineImplicitsUse(st, s, infos);
  }

  lemma {:induction false} ImplicitTargetsKept(a: State, b: State, s: ScopeId, l: seq<RefId>)
    requires s < |a.scopes| && Below(l, |a.refs|) && Kept(a, b)
    ensures ImplicitTargets(b, s, l) == ImplicitTargets(a, s, l)
    decreases |l|
  {
    if l != [] {
      var x := l[|l| - 1];
      ImplicitTargetsKept(a, b, s, l[..|l| - 1]);
      CanResolveKept(a, b, s, x);
      assert RefKept(a.refs[x], b.refs[x]);
    }
  }

  /** `__left` of the current scope, with the facts `__close` relies on. */
  function Pending(st: State, s: ScopeId): (l: seq<RefId>)
    requires Valid(st) && st.current == Some(s)
    ensures Closable(st, s) && Below(l, |st.refs|) && st.scopes[s].left == Some(l)
  {
    ValidClosable(st, s);
    assert ScopeOk(st.scopes, st.vars, |st.refs|, s);
    st.scopes[s].left.value
  }

  /**
   * Closing a static scope, or any scope in optimistic mode: each pending
   * reference is either resolved to the same-named local Variable or passed
   * to `through` and to the upper scope's `__left`, never both, in order.
   */
  lemma CloseStaticEffect(st: State, s: ScopeId, optimistic: bool)
    requires Valid(st) && st.current == Some(s)
    requires !st.scopes[s].dynamic || optimistic
    ensures var l, r := Pending(st, s), Close(st, s, optimistic);
      && (forall y :: 0 <= y < |st.refs| ==>
            r.refs[y] == st.refs[y].(resolved := if y in l && CanResolve(st, s, y) then Some(Target(st, s, y)) else st.refs[y].resolved))
      && r.scopes[s].through == st.scopes[s].through + Unresolved(st, s, l)
      && (st.scopes[s].upper.Some? ==>
            var u := st.scopes[s].upper.value;
            r.scopes[u].left == Some(st.scopes[u].left.value + Unresolved(st, s, l)))
  {
    var l := Pending(st, s);
    CloseAfterRegime(st, s, optimistic);
    CloseStaticResolves(st, s, l);
    CloseStaticThrough(st, s, l);
    if st.scopes[s].upper.Some? {
      CloseStaticLeft(st, s, l);
    }
  }

  /**
   * ... and each Variable records, in order, the references resolved to it,
   * keeps `stack` only if they all come from this variable scope, and is
   * tainted if one of them is; `taints` gains exactly their names.
   */
  lemma CloseStaticVariables(st: State, s: ScopeId, optimistic: bool)
    requires Valid(st) && st.current == Some(s)
    requires !st.scopes[s].dynamic || optimistic
    ensures var l, r := Pending(st, s), Close(st, s, optimistic);
      && (forall v :: 0 <= v < |st.vars| ==> SameUse(Recorded(st, s, v, ResolvedTo(st, s, l, v)), r.vars[v]))
      && r.scopes[s].taints == st.scopes[s].taints + TaintedNames(st, s, l)
  {
    var l := Pending(st, s);
    CloseAfterRegime(st, s, optimistic);
    CloseStaticTaints(st, s, l);
    forall v | 0 <= v < |st.vars| ensures SameUse(Recorded(st, s, v, ResolvedTo(st, s, l, v)), Close(st, s, optimistic).vars[v]) {
      CloseStaticVariable(st, s, l, v);
    }
  }

  /**
   * Closing a `with` scope (not optimistic): every pending reference is
   * tainted and delegated, none is resolved, no Variable and no `taints`
   * changes.
   */
  lemma CloseWithEffect(st: State, s: ScopeId, optimistic: bool)
    requires Valid(st) && st.current == Some(s)
    requires st.scopes[s].dynamic && !optimistic && st.scopes[s].scopeType == WithScope
    ensures var l, r := Pending(st, s), Close(st, s, optimistic);
      && (forall y :: 0 <= y < |st.refs| ==> r.refs[y] == st.refs[y].(tainted := st.refs[y].tainted || y in l))
      && r.vars == st.vars && r.scopes[s].taints == st.scopes[s].taints
      && r.scopes[s].through == st.scopes[s].through + l
      && (st.scopes[s].upper.Some? ==>
            var u := st.scopes[s].upper.value;
            r.scopes[u].left == Some(st.scopes[u].left.value + l))
  {
    var l := Pending(st, s);
    assert ScopeOk(st.scopes, st.vars, |st.refs|, s);
    CloseAfterRegime(st, s, optimistic);
    CloseWithTaints(st, s, l);
    CloseWithThrough(st, s, l);
    WithTaintsKept(st, s, l);
  }

  /** The `with` loop leaves `taints` alone. */
  lemma {:induction false} WithTaintsKept(st: State, s: ScopeId, l: seq<RefId>)
    requires Closable(st, s) && Below(l, |st.refs|)
    ensures CloseWith(st, s, l).scopes[s].taints == st.scopes[s].taints
    decreases |l|
  {
    if l != [] {
      WithTaintsKept(st, s, l[..|l| - 1]);
      var m := CloseWith(st, s, l[..|l| - 1]);
      ClosableKept(st, m, s);
      WithStepThrough(m, s, l[|l| - 1]);
    }
  }

  /**
   * Closing any other dynamic scope (global, or a function containing a
   * direct `eval`, not optimistic): nothing is resolved or tainted, and the
   * pending references are appended, in order, to `through` of the scope and
   * of every scope above it.
   */
  lemma CloseDynamicEffect(st: State, s: ScopeId, optimistic: bool)
    requires Valid(st) && st.current == Some(s)
    requires st.scopes[s].dynamic && !optimistic && st.scopes[s].scopeType != WithScope
    ensures var l, r := Pending(st, s), Close(st, s, optimistic);
      && r.refs == st.refs
      && forall i :: 0 <= i < |st.scopes| ==>
           r.scopes[i].through == st.scopes[i].through + if i in Ancestors(st, s) then l else []
  {
    var l := Pending(st, s);
    CloseAfterRegime(st, s, optimistic);
    CloseDynamicThrough(st, s, l);
  }

  /**
   * Closing the global scope: only the pending references that carry
   * implicit-global information and whose name is not in `set` are defined,
   * into `implicit` alone (`set` and `variables` stay), and `implicit.left`
   * is the pending list.
   */
  lemma CloseGlobalEffect(st: State, s: ScopeId, optimistic: bool)
    requires Valid(st) && st.current == Some(s) && st.scopes[s].scopeType == GlobalScope
    ensures var l, r := Pending(st, s), Close(st, s, optimistic);
      && r.scopes[s].names == st.scopes[s].names && r.scopes[s].variables == st.scopes[s].variables
      && st.scopes[s].implicit.Some? && r.scopes[s].implicit.Some?
      && r.scopes[s].implicit.value.left == l
      && r.scopes[s].implicit.value.names.Keys ==
           st.scopes[s].implicit.value.names.Keys + PatternNames(ImplicitTargets(st, s, l))
  {
    var l := Pending(st, s);
    assert ScopeOk(st.scopes, st.vars, |st.refs|, s);
    var m := Regime(st, s, optimistic);
    RegimeValid(st, s, optimistic);
    assert ScopeKept(st.scopes[s], m.scopes[s]) && ScopeGrows(st.scopes[s], m.scopes[s]);
    assert ScopeOk(m.scopes, m.vars, |m.refs|, s);
    ImplicitTargetsKept(st, m, s, l);
    GlobalCloseEffect(m, s, l);
    RegimeImplicit(st, s, optimistic);
    var g := GlobalClose(m, s, l);
    assert Close(st, s, optimistic) == Finish(g, s);
    assert Finish(g, s).scopes[s] == g.scopes[s].(left := None);
  }

  lemma GlobalCloseEffect(st: State, s: ScopeId, l: seq<RefId>)
    requires Valid(st) && s < |st.scopes| && st.scopes[s].implicit.Some? && Below(l, |st.refs|)
    ensures var r := GlobalClose(st, s, l);
      && r.scopes[s].names == st.scopes[s].names && r.scopes[s].variables == st.scopes[s].variables
      && r.scopes[s].implicit.Some? && r.scopes[s].implicit.value.left == l
      && r.scopes[s].implicit.value.names.Keys ==
           st.scopes[s].implicit.value.names.Keys + PatternNames(ImplicitTargets(st, s, l))
  {
    var infos := ImplicitTargets(st, s, l);
    DefineImplicitsFrame(st, s, infos);
    DefineImplicitsNames(st, s, infos);
  }

  /** The resolution loops leave `variables` and the implicit table alone. */
  lemma RegimeImplicit(st: State, s: ScopeId, optimistic: bool)
    requires Valid(st) && st.current == Some(s)
    ensures var m := Regime(st, s, optimistic);
      m.scopes[s].variables == st.scopes[s].variables && m.scopes[s].implicit == st.scopes[s].implicit
  {
    var l := Pending(st, s);
    if !st.scopes[s].dynamic || optimistic {
      CloseStaticShape(st, s, l);
    } else if st.scopes[s].scopeType == WithScope {
      CloseWithShape(st, s, l);
    } else {
      CloseDynamicThrough(st, s, l);
    }
  }

  /** The static loop changes only `through` and `taints` of the closing scope. */
  lemma {:induction false} CloseStaticShape(st: State, s: ScopeId, l: seq<RefId>)
    requires Closable(st, s) && Below(l, |st.refs|)
    ensures var r := CloseStatic(st, s, l);
      r.scopes[s] == st.scopes[s].(through := r.scopes[s].through, taints := r.scopes[s].taints)
    decreases |l|
  {
    if l != [] {
      CloseStaticShape(st, s, l[..|l| - 1]);
      var m := CloseStatic(st, s, l[..|l| - 1]);
      ClosableKept(st, m, s);
      StaticStepShape(m, s, l[|l| - 1]);
    }
  }

  lemma StaticStepShape(st: State, s: ScopeId, x: RefId)
    requires Closable(st, s) && x < |st.refs|
    ensures var r := StaticStep(st, s, x);
      r.scopes[s] == st.scopes[s].(through := r.scopes[s].through, taints := r.scopes[s].taints)
  {
    if CanResolve(st, s, x) {
      assert StaticStep(st, s, x) == Resolve(st, s, x);
    } else {
      assert StaticStep(st, s, x) == Delegate(st, s, x);
    }
  }

  /** The `with` loop changes only `through` of the closing scope. */
  lemma {:induction false} CloseWithShape(st: State, s: ScopeId, l: seq<RefId>)
    requires Closable(st, s) && Below(l, |st.refs|)
    ensures var r := CloseWith(st, s, l);
      r.scopes[s] == st.scopes[s].(through := r.scopes[s].through)
    decreases |l|
  {
    if l != [] {
      CloseWithShape(st, s, l[..|l| - 1]);
      var m := CloseWith(st, s, l[..|l| - 1]);
      ClosableKept(st, m, s);
      WithStepShape(m, s, l[|l| - 1]);
    }
  }

  lemma WithStepShape(st: State, s: ScopeId, x: RefId)
    requires Closable(st, s) && x < |st.refs|
    ensures var r := WithStep(st, s, x);
      r.scopes[s] == st.scopes[s].(through := r.scopes[s].through)
  {
    var t := TaintRef(st, x);
    assert t.scopes == st.scopes;
    assert WithStep(st, s, x) == Delegate(t, s, x);
  }
}
