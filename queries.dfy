/**
 * The scope flags set while the tree is walked (lib/scope.js `__detectEval`,
 * `__detectThis`) and the read-only Scope API that consults them (`isStatic`,
 * `isArgumentsMaterialized`, `isThisMaterialized`, `isUsedName`, `resolve`).
 */
module Queries {
  import opened Base
  import opened Scopes
  import opened Closing
  import opened Ast
  import opened Nesting

  lemma ValidUppers(st: State)
    requires Valid(st)
    ensures UppersBelow(st)
  {
    forall i | 0 <= i < |st.scopes| && st.scopes[i].upper.Some? ensures st.scopes[i].upper.value < i {
      assert ScopeOk(st.scopes, st.vars, |st.refs|, i);
    }
  }

  // ---------------------------------------------------------------------
  // Flags

  /** `b` differs from `a` at most in the `dynamic`, `directCallToEvalScope` and `thisFound` flags, which only rise. */
  ghost predicate FlagsOnly(a: State, b: State)
  {
    && |b.scopes| == |a.scopes|
    && b == a.(scopes := b.scopes)
    && forall i :: 0 <= i < |a.scopes| ==>
         && b.scopes[i] == a.scopes[i].(dynamic := b.scopes[i].dynamic,
                                        directCallToEvalScope := b.scopes[i].directCallToEvalScope,
                                        thisFound := b.scopes[i].thisFound)
         && (a.scopes[i].dynamic ==> b.scopes[i].dynamic)
         && (a.scopes[i].directCallToEvalScope ==> b.scopes[i].directCallToEvalScope)
         && (a.scopes[i].thisFound ==> b.scopes[i].thisFound)
  }

  /** Raising flags keeps the arena invariant and only lets the analysis grow. */
  lemma FlagsValid(a: State, b: State)
    requires Valid(a) && FlagsOnly(a, b)
    ensures Valid(b) && Grows(a, b) && Local(a, b)
  {
    forall i | 0 <= i < |b.scopes|
      ensures SameTables(a.scopes[i], b.scopes[i]) && ListsBelow(b.scopes[i], |b.scopes|, |b.refs|)
    {
      assert ScopeOk(a.scopes, a.vars, |a.refs|, i);
    }
    CurrentOpenFrame(a, b);
    ValidFrame(a, b, {}, {}, {});
    forall i | 0 <= i < |a.scopes| ensures ScopeGrows(a.scopes[i], b.scopes[i]) {
    }
    forall v | 0 <= v < |a.vars| ensures VarGrows(a.vars[v], b.vars[v]) {
    }
    forall x | 0 <= x < |a.refs| ensures RefGrows(a.refs[x], b.refs[x]) {
    }
  }

  lemma FlagsOnlyTrans(a: State, b: State, c: State)
    requires FlagsOnly(a, b) && FlagsOnly(b, c)
    ensures FlagsOnly(a, c)
  {
  }

  /** `current.dynamic = true` for `c` and every scope above it: the `do … while (current)` loop of `__detectEval`. */
  function MarkDynamic(st: State, c: ScopeId): (r: State)
    requires c < |st.scopes| && UppersBelow(st)
    ensures FlagsOnly(st, r)
    decreases c
  {
    var t := st.(scopes := st.scopes[c := st.scopes[c].(dynamic := true)]);
    assert UppersBelow(t);
    if st.scopes[c].upper.Some? then
      var r := MarkDynamic(t, st.scopes[c].upper.value);
      FlagsOnlyTrans(st, t, r);
      r
    else t
  }

  /** `FlagsOnly` keeps the `upper` links, hence the chain above a scope. */
  lemma {:induction false} FlagsAncestors(a: State, b: State, c: ScopeId)
    requires c < |a.scopes| && UppersBelow(a) && FlagsOnly(a, b)
    ensures UppersBelow(b) && Ancestors(b, c) == Ancestors(a, c)
    decreases c
  {
    assert forall i :: 0 <= i < |a.scopes| ==> b.scopes[i].upper == a.scopes[i].upper;
    assert UppersBelow(b);
    if a.scopes[c].upper.Some? {
      FlagsAncestors(a, b, a.scopes[c].upper.value);
    }
  }

  /** Exactly the scopes on the chain from `c` to the root become dynamic. */
  lemma {:induction false} MarkDynamicEffect(st: State, c: ScopeId)
    requires c < |st.scopes| && UppersBelow(st)
    ensures var r := MarkDynamic(st, c);
      forall i :: 0 <= i < |st.scopes| ==>
        r.scopes[i] == if i in Ancestors(st, c) then st.scopes[i].(dynamic := true) else st.scopes[i]
    decreases c
  {
    var t := st.(scopes := st.scopes[c := st.scopes[c].(dynamic := true)]);
    assert UppersBelow(t);
    if st.scopes[c].upper.Some? {
      var u := st.scopes[c].upper.value;
      MarkDynamicEffect(t, u);
      FlagsAncestors(st, t, u);
      AncestorsBelow(st, u);
      var r := MarkDynamic(t, u);
      assert MarkDynamic(st, c) == r;
      assert Ancestors(st, c) == {c} + Ancestors(st, u);
      forall i | 0 <= i < |st.scopes|
        ensures r.scopes[i] == if i in Ancestors(st, c) then st.scopes[i].(dynamic := true) else st.scopes[i]
      {
        if i == c {
          assert c !in Ancestors(st, u);
        }
      }
    }
  }

  /** `__detectEval` on scope `s`: `s` is marked as calling `eval` directly, and its whole chain becomes dynamic. */
  function DetectEval(st: State, s: ScopeId): (r: State)
    requires Valid(st) && s < |st.scopes|
    ensures Valid(r) && Grows(st, r) && Local(st, r)
  {
    ValidUppers(st);
    var t := st.(scopes := st.scopes[s := st.scopes[s].(directCallToEvalScope := true)]);
    assert FlagsOnly(st, t);
    FlagsAncestors(st, t, s);
    var r := MarkDynamic(t, s);
    FlagsOnlyTrans(st, t, r);
    FlagsValid(st, r);
    r
  }

  /** `s` and the scopes above it, in a valid state. */
  ghost function Chain(st: State, s: ScopeId): (r: set<ScopeId>)
    requires Valid(st) && s < |st.scopes|
  {
    ValidUppers(st);
    Ancestors(st, s)
  }

  /**
   * After `__detectEval` on `s`, `s` calls eval directly, no scope on its chain
   * is static any more, and every other scope is exactly as it was.
   */
  lemma DetectEvalEffect(st: State, s: ScopeId)
    requires Valid(st) && s < |st.scopes|
    ensures var r := DetectEval(st, s);
      && r.scopes[s].directCallToEvalScope
      && (forall i :: i in Chain(st, s) ==> i < |r.scopes| && !IsStatic(r.scopes[i]))
      && (forall i :: 0 <= i < |st.scopes| && i !in Chain(st, s) ==> r.scopes[i] == st.scopes[i])
      && r.vars == st.vars && r.refs == st.refs
  {
    ValidUppers(st);
    var t := st.(scopes := st.scopes[s := st.scopes[s].(directCallToEvalScope := true)]);
    assert FlagsOnly(st, t);
    FlagsAncestors(st, t, s);
    MarkDynamicEffect(t, s);
    AncestorsBelow(st, s);
    assert s in Ancestors(st, s);
  }

  /** `__detectThis`: the scope has seen `this`. */
  function DetectThis(st: State, s: ScopeId): (r: State)
    requires Valid(st) && s < |st.scopes|
    ensures Valid(r) && Grows(st, r) && Local(st, r)
    ensures r.scopes[s].thisFound && r.scopes[s] == st.scopes[s].(thisFound := true)
    ensures forall i :: 0 <= i < |st.scopes| && i != s ==> r.scopes[i] == st.scopes[i]
    ensures r.vars == st.vars && r.refs == st.refs
  {
    var r := st.(scopes := st.scopes[s := st.scopes[s].(thisFound := true)]);
    assert FlagsOnly(st, r);
    FlagsValid(st, r);
    r
  }

  // ---------------------------------------------------------------------
  // Queries

  /** `isStatic`: the scope was not made dynamic by `with`, the global scope or `eval`. */
  predicate IsStatic(sc: Scope)
  {
    !sc.dynamic
  }

  /**
   * `isArgumentsMaterialized`.  A static function scope must own an
   * `arguments` variable (the source asserts it); it is materialised when that
   * variable is tainted or referenced.
   */
  function ArgumentsMaterialized(st: State, s: ScopeId): (r: Result<bool, Error>)
    requires Valid(st) && s < |st.scopes|
    ensures st.scopes[s].scopeType != FunctionScope || !IsStatic(st.scopes[s]) ==> r == Success(true)
    ensures r.Failure? <==>
      st.scopes[s].scopeType == FunctionScope && IsStatic(st.scopes[s]) && "arguments" !in st.scopes[s].names
    ensures r.Failure? ==> r.error == NoArgumentsVariable
    ensures r.Success? && !r.value ==>
      var v := st.scopes[s].names["arguments"];
      v < |st.vars| && !st.vars[v].tainted && st.vars[v].references == []
  {
    var sc := st.scopes[s];
    if sc.scopeType != FunctionScope then Success(true)
    else if !IsStatic(sc) then Success(true)
    else if "arguments" !in sc.names then Failure(NoArgumentsVariable)
    else
      assert ScopeOk(st.scopes, st.vars, |st.refs|, s);
      var x := st.vars[sc.names["arguments"]];
      Success(x.tainted || |x.references| != 0)
  }

  /** `isThisMaterialized`: outside static function scopes always; inside, once `this` was seen. */
  predicate ThisMaterialized(sc: Scope)
  {
    sc.scopeType != FunctionScope || !IsStatic(sc) || sc.thisFound
  }

  /** After `__detectEval` on `s`, every scope on its chain reports both `arguments` and `this` as materialised. */
  lemma EvalMaterializes(st: State, s: ScopeId, i: ScopeId)
    requires Valid(st) && s < |st.scopes|
    requires i in Chain(st, s)
    ensures var r := DetectEval(st, s);
      i < |r.scopes| && ArgumentsMaterialized(r, i) == Success(true) && ThisMaterialized(r.scopes[i])
  {
    DetectEvalEffect(st, s);
  }

  /**
   * An arrow function's scope has type 'function' but, by design, no
   * `arguments` binding (the opening the constructor reads off the node);
   * with `OpenedWithoutArguments`, `isArgumentsMaterialized` on such a static
   * scope fails the source's assertion.
   */
  lemma ArrowOpening(block: Node, isMethodDefinition: bool, useDirective: bool)
    requires block.ArrowFunctionExpression?
    ensures var o := OpeningOf(block, isMethodDefinition, Normal, useDirective);
      o.scopeType == FunctionScope && o.binds == BindsNothing && !o.functionExpressionScope
    ensures !NeedsNameScope(block, Normal)
  {
  }

  /** A static function scope opened without the `arguments` binding has no `arguments` variable. */
  lemma OpenedWithoutArguments(st: State, o: Opening, name: Option<Opening>)
    requires Valid(st) && (name.Some? ==> OwnsVariables(name.value.scopeType))
    requires Construct(st, o, name).Success?
    requires o.scopeType == FunctionScope && o.binds == BindsNothing && !o.functionExpressionScope
    ensures var r := Construct(st, o, name).value; var k := |r.scopes| - 1;
      && k < |r.scopes| && "arguments" !in r.scopes[k].names && IsStatic(r.scopes[k])
      && ArgumentsMaterialized(r, k) == Failure(NoArgumentsVariable)
      && ArgumentsMaterializedIntended(r, k) == false
  {
    ConstructOpens(st, o, name);
    var r := Construct(st, o, name).value;
    NoArgumentsScope(r, |r.scopes| - 1);
  }

  lemma NoArgumentsScope(r: State, k: ScopeId)
    requires Valid(r) && k < |r.scopes|
    requires r.scopes[k].scopeType == FunctionScope && r.scopes[k].names.Keys == {}
    requires !r.scopes[k].dynamic && !r.scopes[k].functionExpressionScope
    ensures "arguments" !in r.scopes[k].names
    ensures ArgumentsMaterialized(r, k) == Failure(NoArgumentsVariable) && !ArgumentsMaterializedIntended(r, k)
  {
    assert "arguments" !in r.scopes[k].names.Keys;
  }

  /**
   * `isArgumentsMaterialized` as evidently intended: wherever the source
   * answers, the same answer.  Where its assertion fails, a function scope
   * without its own `arguments` binding (an arrow function) has no
   * `arguments` object to materialise, so the answer is false, and a
   * function-expression name scope is not a function body at all, so it
   * answers true as the other non-function scopes do.  It never fails.
   */
  function ArgumentsMaterializedIntended(st: State, s: ScopeId): (r: bool)
    requires Valid(st) && s < |st.scopes|
    ensures ArgumentsMaterialized(st, s).Success? ==> r == ArgumentsMaterialized(st, s).value
    ensures ArgumentsMaterialized(st, s).Failure? ==> (r <==> st.scopes[s].functionExpressionScope)
  {
    var sc := st.scopes[s];
    if sc.scopeType != FunctionScope || !IsStatic(sc) then true
    else if "arguments" !in sc.names then sc.functionExpressionScope
    else
      assert ScopeOk(st.scopes, st.vars, |st.refs|, s);
      var x := st.vars[sc.names["arguments"]];
      x.tainted || |x.references| != 0
  }

  /**
   * The name scope of `(function f() {})` is a second static scope of type
   * 'function' without `arguments`: it binds only `f`.  Unless the name is
   * `arguments` itself, the source's assertion fails on it, where the
   * intended query answers true.
   */
  lemma NameScopeWithoutArguments(st: State, block: Node, isMethodDefinition: bool, useDirective: bool)
    requires Valid(st) && NeedsNameScope(block, Normal)
    requires !(block.id.value.Identifier? && block.id.value.name == "arguments")
    requires NestScope(st, block, isMethodDefinition, Normal, useDirective).Success?
    ensures var r := NestScope(st, block, isMethodDefinition, Normal, useDirective).value; var n := |st.scopes|;
      && n < |r.scopes| && r.scopes[n].functionExpressionScope
      && r.scopes[n].scopeType == FunctionScope && IsStatic(r.scopes[n]) && "arguments" !in r.scopes[n].names
      && ArgumentsMaterialized(r, n) == Failure(NoArgumentsVariable)
      && ArgumentsMaterializedIntended(r, n)
  {
    var name := OpeningOf(block, isMethodDefinition, FunctionExpressionName, useDirective);
    var o := OpeningOf(block, isMethodDefinition, Normal, useDirective);
    assert TypeOf(FunctionExpressionName, block) == FunctionScope;
    ConstructNameScope(st, o, Some(name));
    var r := NestScope(st, block, isMethodDefinition, Normal, useDirective).value;
    var n := |st.scopes|;
    assert r.scopes[n].names.Keys == Bound(name.binds);
    assert "arguments" !in r.scopes[n].names.Keys;
  }

  /** After `__detectThis`, the scope reports `this` as materialised. */
  lemma ThisMaterializedAfterDetect(st: State, s: ScopeId)
    requires Valid(st) && s < |st.scopes|
    ensures ThisMaterialized(DetectThis(st, s).scopes[s])
  {
  }

  /** Reference `x` of the arena binds an identifier called `name`. */
  predicate Uses(st: State, x: RefId, name: string)
  {
    x < |st.refs| && st.refs[x].identifier.Ident? && st.refs[x].identifier.name == name
  }

  /** `isUsedName`: the name is declared in the scope, or some reference passing through it uses it. */
  ghost predicate UsedName(st: State, s: ScopeId, name: string)
    requires s < |st.scopes|
  {
    || name in st.scopes[s].names
    || exists i :: 0 <= i < |st.scopes[s].through| && Uses(st, st.scopes[s].through[i], name)
  }

  /** A name once used in a scope stays used as the analysis grows. */
  lemma UsedNameGrows(a: State, b: State, s: ScopeId, name: string)
    requires Grows(a, b) && s < |a.scopes| && UsedName(a, s, name)
    ensures UsedName(b, s, name)
  {
    assert ScopeGrows(a.scopes[s], b.scopes[s]);
    if name !in a.scopes[s].names {
      var i :| 0 <= i < |a.scopes[s].through| && Uses(a, a.scopes[s].through[i], name);
      var x := a.scopes[s].through[i];
      assert b.scopes[s].through[i] == x;
      assert RefGrows(a.refs[x], b.refs[x]);
    }
  }

  /** A name defined in a scope is used there. */
  lemma DefinedIsUsed(st: State, s: ScopeId, node: Option<Handle>, def: Definition)
    requires Valid(st) && s < |st.scopes| && IsIdent(node)
    ensures UsedName(Define(st, s, node, def), s, node.value.name)
  {
  }

  /**
   * `resolve(ident)`: the first of the scope's references whose identifier is
   * `ident`, or none.  The scope must be closed and `ident` an Identifier.
   */
  predicate RefersTo(st: State, x: RefId, ident: Handle)
  {
    x < |st.refs| && st.refs[x].identifier == ident
  }

  ghost predicate FirstRef(st: State, xs: seq<RefId>, ident: Handle, r: Option<nat>)
  {
    match r
    case Some(i) =>
      i < |xs| && RefersTo(st, xs[i], ident)
      && forall j :: 0 <= j < i ==> !RefersTo(st, xs[j], ident)
    case None => forall j :: 0 <= j < |xs| ==> !RefersTo(st, xs[j], ident)
  }

  /** The position `resolve` finds is unique: the API answer is determined. */
  lemma FirstRefUnique(st: State, xs: seq<RefId>, ident: Handle, r: Option<nat>, r': Option<nat>)
    requires FirstRef(st, xs, ident, r) && FirstRef(st, xs, ident, r')
    ensures r == r'
  {
  }

  /** What `resolve` may fail on before it searches. */
  function ResolveCheck(st: State, s: ScopeId, ident: Handle): (r: Outcome<Error>)
    requires s < |st.scopes|
    ensures r.Pass? <==> st.scopes[s].left.None? && ident.Ident?
    ensures st.scopes[s].left.Some? ==> r == Fail(ScopeNotClosed)
    ensures st.scopes[s].left.None? && !ident.Ident? ==> r == Fail(NotAnIdentifier)
  {
    if st.scopes[s].left.Some? then Fail(ScopeNotClosed)
    else if !ident.Ident? then Fail(NotAnIdentifier)
    else Pass
  }
}
