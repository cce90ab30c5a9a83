/**
 * The single steps the Referencer (lib/referencer.js) takes on the scope
 * records, as functions of the analysis state: reading an Identifier, the
 * `this` and direct-`eval` notifications, the declarator a
 * `visitVariableDeclaration` call works on, and `close(node)`.  Each step
 * that dereferences `currentScope()` fails with NoCurrentScope when there is
 * no current scope, as the source's TypeError does.
 *
 * The second half describes the chain of open scopes the `upper` links form
 * from the current scope: which scopes `close(node)` leaves, and the
 * condition under which a visit of a subtree finds no scope of its own open.
 */
module Steps {
  import opened Base
  import opened Ast
  import opened Scopes
  import opened Closing
  import opened Nesting
  import opened Queries
  import opened Patterns
  import opened Bindings

  /** A nullable node field as the records hold it. */
  function OptHandle(o: Option<Node>): Option<Handle>
  {
    if o.Some? then Some(HandleOf(o.value)) else None
  }

  // ---------------------------------------------------------------------
  // Identifier, ThisExpression, and a direct call to eval

  /** `currentScope().__referencing(node)`: a READ reference from the current scope. */
  function ReadStep(st: State, id: Handle): (r: Result<State, Error>)
    requires Valid(st)
    ensures r.Success? ==> Valid(r.value) && Grows(st, r.value) && Local(st, r.value)
  {
    if st.current.None? then Failure(NoCurrentScope)
    else
      ValidCurrent(st);
      Success(Referencing(st, st.current.value, Some(id), None, None, None, false))
  }

  /**
   * An Identifier read adds exactly one reference, at the end of the arena:
   * a READ from the current scope, unresolved and untainted, with no written
   * expression and no implicit-global record; the current scope lists it in
   * `references` and in its pending `__left`.
   */
  lemma ReadStepReads(st: State, id: Handle)
    requires Valid(st) && id.Ident?
    ensures ReadStep(st, id).Failure? <==> st.current.None?
    ensures ReadStep(st, id).Failure? ==> ReadStep(st, id).error == NoCurrentScope
    ensures st.current.Some? ==>
      var r := ReadStep(st, id).value; var c := st.current.value; var x := |st.refs|;
      && |r.refs| == x + 1 && r.refs[..x] == st.refs
      && r.refs[x] == Reference(id, c, false, None, Read, None, false, None)
      && c < |st.scopes| && st.scopes[c].left.Some?
      && r.scopes[c].references == st.scopes[c].references + [x]
      && r.scopes[c].left == Some(st.scopes[c].left.value + [x])
      && r.vars == st.vars
  {
    if st.current.Some? {
      ValidCurrent(st);
      var r := ReadStep(st, id).value;
      assert r.refs == st.refs + [NewReference(id, st.current.value, None, None, None, false)];
      assert r.refs[..|st.refs|] == st.refs;
    }
  }

  /** The variable scope of the current scope, which `this` and direct eval are reported to. */
  function CurrentVariableScope(st: State): (s: ScopeId)
    requires Valid(st) && st.current.Some?
    ensures s < |st.scopes| && OwnsVariables(st.scopes[s].scopeType)
  {
    ValidCurrent(st);
    var c := st.current.value;
    assert ScopeOk(st.scopes, st.vars, |st.refs|, c);
    st.scopes[c].variableScope
  }

  /** `currentScope().variableScope.__detectThis()`. */
  function ThisStep(st: State): (r: Result<State, Error>)
    requires Valid(st)
    ensures r.Success? ==> Valid(r.value) && Grows(st, r.value) && Local(st, r.value)
  {
    if st.current.None? then Failure(NoCurrentScope)
    else Success(DetectThis(st, CurrentVariableScope(st)))
  }

  /**
   * After a `this`, the variable scope of the current scope has seen `this`,
   * and nothing else changed.
   */
  lemma ThisStepMarks(st: State)
    requires Valid(st)
    ensures ThisStep(st).Failure? <==> st.current.None?
    ensures st.current.Some? ==>
      var r := ThisStep(st).value; var s := CurrentVariableScope(st);
      && r.scopes[s].thisFound
      && (forall i :: 0 <= i < |st.scopes| && i != s ==> r.scopes[i] == st.scopes[i])
      && r.vars == st.vars && r.refs == st.refs
  {
  }

  /** `currentScope().variableScope.__detectEval()`. */
  function EvalStep(st: State): (r: Result<State, Error>)
    requires Valid(st)
    ensures r.Success? ==> Valid(r.value) && Grows(st, r.value) && Local(st, r.value)
  {
    if st.current.None? then Failure(NoCurrentScope)
    else Success(DetectEval(st, CurrentVariableScope(st)))
  }

  /**
   * After a direct call to eval, the variable scope of the current scope is
   * marked as calling eval, and it and every scope above it are dynamic;
   * the current scope itself, when it is a block inside that variable
   * scope, is left as it was.
   */
  lemma EvalStepMarks(st: State)
    requires Valid(st) && st.current.Some?
    ensures EvalStep(st).Success?
    ensures var r := EvalStep(st).value; var s := CurrentVariableScope(st);
      && r.scopes[s].directCallToEvalScope
      && (forall i :: i in Chain(st, s) ==> i < |r.scopes| && !IsStatic(r.scopes[i]))
      && (forall i :: 0 <= i < |st.scopes| && i !in Chain(st, s) ==> r.scopes[i] == st.scopes[i])
  {
    DetectEvalEffect(st, CurrentVariableScope(st));
  }

  // ---------------------------------------------------------------------
  // The declarator of a visitVariableDeclaration call

  /** What one `visitVariableDeclaration` call binds: the pattern's identifiers, their Definition, the initialiser. */
  datatype Declared = Declared(targets: seq<Target>, tpl: DefTemplate, init: Option<Handle>)

  /**
   * `node.declarations[index]` and the walk of its `id`.  Reading `init` of a
   * missing declarator fails as the source's TypeError does; a missing `id`
   * walks nothing.
   */
  function Declarator(defType: DefType, n: Node, index: nat): (r: Result<Declared, Error>)
    ensures r.Success? ==> n.VariableDeclaration? && index < |n.declarations|
    ensures r.Success? ==> r.value.tpl == DefTemplate(defType, None, HandleOf(n.declarations[index]),
                                                      Some(HandleOf(n)), Some(index), Some(n.kind))
  {
    if !n.VariableDeclaration? || index >= |n.declarations| || !n.declarations[index].VariableDeclarator? then
      Failure(MalformedNode)
    else
      var decl := n.declarations[index];
      var hits :- VisitPattern(decl.id);
      Success(Declared(TargetsOf(hits), DefTemplate(defType, None, HandleOf(decl), Some(HandleOf(n)), Some(index), Some(n.kind)),
                       OptHandle(decl.init)))
  }

  /**
   * `var x = e`: the declarator binds exactly `x`, as a top-level identifier,
   * and the initialiser is `e`.
   */
  lemma DeclaratorIdentifier(defType: DefType, n: Node, index: nat)
    requires n.VariableDeclaration? && index < |n.declarations| && n.declarations[index].VariableDeclarator?
    requires n.declarations[index].id.Some? && n.declarations[index].id.value.Identifier?
    ensures Declarator(defType, n, index).Success?
    ensures var d := Declarator(defType, n, index).value; var decl := n.declarations[index];
      && d.targets == [Target(HandleOf(decl.id.value), true)]
      && (d.init.Some? <==> decl.init.Some?)
      && (decl.init.Some? ==> d.init.value.nid == decl.init.value.nid)
  {
    IdentifierPattern(n.declarations[index].id.value);
  }

  /** An index past the end leaves `decl` undefined, and reading `decl.init` is the TypeError. */
  lemma DeclaratorMissing(defType: DefType, n: Node, index: nat)
    requires n.VariableDeclaration? && index >= |n.declarations|
    ensures Declarator(defType, n, index) == Failure(MalformedNode)
  {
  }

  /** A declarator without an `id` binds nothing, and keeps its initialiser. */
  lemma DeclaratorWithoutId(defType: DefType, n: Node, index: nat)
    requires n.VariableDeclaration? && index < |n.declarations|
    requires n.declarations[index].VariableDeclarator? && n.declarations[index].id.None?
    ensures Declarator(defType, n, index).Success?
    ensures var d := Declarator(defType, n, index).value; var decl := n.declarations[index];
      && d.targets == []
      && (d.init.Some? <==> decl.init.Some?)
      && (decl.init.Some? ==> d.init.value.nid == decl.init.value.nid)
  {
  }

  // ---------------------------------------------------------------------
  // close(node)

  /** The scope reached from `cur` by leaving every scope whose block is node `nid`. */
  function Pop(scopes: seq<Scope>, cur: Option<ScopeId>, nid: NodeId): Option<ScopeId>
    decreases if cur.Some? then cur.value + 1 else 0
  {
    if cur.Some? && cur.value < |scopes| && scopes[cur.value].block.nid == nid
       && (scopes[cur.value].upper.Some? ==> scopes[cur.value].upper.value < cur.value)
    then Pop(scopes, scopes[cur.value].upper, nid)
    else cur
  }

  /** The scopes left on the way. */
  ghost function Popped(scopes: seq<Scope>, cur: Option<ScopeId>, nid: NodeId): set<ScopeId>
    decreases if cur.Some? then cur.value + 1 else 0
  {
    if cur.Some? && cur.value < |scopes| && scopes[cur.value].block.nid == nid
       && (scopes[cur.value].upper.Some? ==> scopes[cur.value].upper.value < cur.value)
    then {cur.value} + Popped(scopes, scopes[cur.value].upper, nid)
    else {}
  }

  /** `close(node)`: `__close` the current scope for as long as its block is `node`. */
  function CloseFrom(st: State, nid: NodeId, optimistic: bool): (r: State)
    requires Valid(st)
    ensures Valid(r) && Grows(st, r)
    ensures r.current.Some? ==> r.current.value < |r.scopes| && r.scopes[r.current.value].block.nid != nid
    decreases if st.current.Some? then st.current.value + 1 else 0
  {
    ValidCurrent(st);
    if st.current.Some? && st.scopes[st.current.value].block.nid == nid then
      var c := st.current.value;
      CloseValid(st, c, optimistic);
      var m := Close(st, c, optimistic);
      var r := CloseFrom(m, nid, optimistic);
      GrowsTrans(st, m, r);
      r
    else
      GrowsRefl(st);
      ValidCurrent(st);
      st
  }

  /** Growth keeps the blocks and links, so `Pop` computed before is still `Pop` after. */
  lemma {:induction false} PopKept(a: State, b: State, cur: Option<ScopeId>, nid: NodeId)
    requires UppersBelow(a) && Grows(a, b) && (cur.Some? ==> cur.value < |a.scopes|)
    ensures Pop(b.scopes, cur, nid) == Pop(a.scopes, cur, nid)
    ensures Popped(b.scopes, cur, nid) == Popped(a.scopes, cur, nid)
    decreases if cur.Some? then cur.value + 1 else 0
  {
    if cur.Some? {
      var c := cur.value;
      assert ScopeGrows(a.scopes[c], b.scopes[c]);
      if a.scopes[c].block.nid == nid {
        PopKept(a, b, a.scopes[c].upper, nid);
      }
    }
  }

  /** `close(node)` leaves the current scope where `Pop` says. */
  lemma {:induction false} CloseFromPops(st: State, nid: NodeId, optimistic: bool)
    requires Valid(st)
    ensures CloseFrom(st, nid, optimistic).current == Pop(st.scopes, st.current, nid)
    decreases if st.current.Some? then st.current.value + 1 else 0
  {
    ValidCurrent(st);
    if st.current.Some? && st.scopes[st.current.value].block.nid == nid {
      var c := st.current.value;
      assert ChainOpen(st.scopes, c);
      CloseValid(st, c, optimistic);
      var m := Close(st, c, optimistic);
      assert CloseFrom(m, nid, optimistic) == CloseFrom(st, nid, optimistic);
      CloseFromPops(m, nid, optimistic);
      ValidUppers(st);
      PopKept(st, m, st.scopes[c].upper, nid);
    }
  }

  /** Every scope `close(node)` leaves is closed. */
  lemma {:induction false} CloseFromCloses(st: State, nid: NodeId, optimistic: bool)
    requires Valid(st)
    ensures forall i :: i in Popped(st.scopes, st.current, nid) ==>
      i < |CloseFrom(st, nid, optimistic).scopes| && CloseFrom(st, nid, optimistic).scopes[i].left.None?
    decreases if st.current.Some? then st.current.value + 1 else 0
  {
    ValidCurrent(st);
    if st.current.Some? && st.scopes[st.current.value].block.nid == nid {
      var c := st.current.value;
      assert ChainOpen(st.scopes, c);
      CloseValid(st, c, optimistic);
      var m := Close(st, c, optimistic);
      var r := CloseFrom(m, nid, optimistic);
      assert r == CloseFrom(st, nid, optimistic);
      CloseFromCloses(m, nid, optimistic);
      ValidUppers(st);
      PopKept(st, m, st.scopes[c].upper, nid);
      assert Popped(st.scopes, st.current, nid) == {c} + Popped(st.scopes, st.scopes[c].upper, nid);
      assert ScopeGrows(m.scopes[c], r.scopes[c]);
    }
  }

  // ---------------------------------------------------------------------
  // The open chain and a subtree's nodes

  /** No scope on the chain from `cur` has its block among `ids`. */
  ghost predicate Outside(scopes: seq<Scope>, cur: Option<ScopeId>, ids: set<NodeId>)
    decreases if cur.Some? then cur.value + 1 else 0
  {
    cur.Some? ==>
      && cur.value < |scopes| && scopes[cur.value].block.nid !in ids
      && (scopes[cur.value].upper.Some? ==> scopes[cur.value].upper.value < cur.value)
      && Outside(scopes, scopes[cur.value].upper, ids)
  }

  lemma {:induction false} OutsideKept(a: State, b: State, cur: Option<ScopeId>, ids: set<NodeId>)
    requires Outside(a.scopes, cur, ids) && Grows(a, b)
    ensures Outside(b.scopes, cur, ids)
    decreases if cur.Some? then cur.value + 1 else 0
  {
    if cur.Some? {
      assert ScopeGrows(a.scopes[cur.value], b.scopes[cur.value]);
      OutsideKept(a, b, a.scopes[cur.value].upper, ids);
    }
  }

  lemma {:induction false} OutsideSub(scopes: seq<Scope>, cur: Option<ScopeId>, ids: set<NodeId>, sub: set<NodeId>)
    requires Outside(scopes, cur, ids) && sub <= ids
    ensures Outside(scopes, cur, sub)
    decreases if cur.Some? then cur.value + 1 else 0
  {
    if cur.Some? {
      OutsideSub(scopes, scopes[cur.value].upper, ids, sub);
    }
  }

  /** The scopes of a subtree's own nodes; under a chain outside them, `Pop` of any of them goes nowhere. */
  lemma OutsidePop(scopes: seq<Scope>, cur: Option<ScopeId>, ids: set<NodeId>, nid: NodeId)
    requires Outside(scopes, cur, ids) && nid in ids
    ensures Pop(scopes, cur, nid) == cur
  {
  }

  /**
   * `r` is `a` with one or two scopes opened for node `nid` on top of the
   * current one, as `__nestScope` opens them (two for a named
   * FunctionExpression: its name scope, then its own).
   */
  ghost predicate Pushed(a: State, r: State, nid: NodeId)
  {
    && r.current.Some? && |a.scopes| <= r.current.value < |r.scopes|
    && (a.current.Some? ==> a.current.value < |a.scopes|)
    && var k := r.current.value;
    && r.scopes[k].block.nid == nid
    && (|| r.scopes[k].upper == a.current
        || (&& r.scopes[k].upper.Some? && |a.scopes| <= r.scopes[k].upper.value < k
            && r.scopes[r.scopes[k].upper.value].block.nid == nid
            && r.scopes[r.scopes[k].upper.value].upper == a.current))
  }

  /** Leaving the new scopes leads back to where the chain stood before. */
  lemma PushedPop(a: State, r: State, nid: NodeId)
    requires Pushed(a, r, nid)
    ensures Pop(r.scopes, r.current, nid) == Pop(r.scopes, a.current, nid)
  {
  }

  lemma PushedOutside(a: State, r: State, nid: NodeId, ids: set<NodeId>)
    requires Pushed(a, r, nid) && nid !in ids && Outside(r.scopes, a.current, ids)
    ensures Outside(r.scopes, r.current, ids)
  {
  }

  /** `__nestScope(block, …)` pushes the scopes it opens for `block`. */
  lemma NestScopePushed(st: State, block: Node, isMethodDefinition: bool, special: SpecialScope, useDirective: bool)
    requires Valid(st) && NestScope(st, block, isMethodDefinition, special, useDirective).Success?
    ensures Pushed(st, NestScope(st, block, isMethodDefinition, special, useDirective).value, block.nid)
  {
    var o := OpeningOf(block, isMethodDefinition, special, useDirective);
    var name := if NeedsNameScope(block, special) then Some(OpeningOf(block, isMethodDefinition, FunctionExpressionName, useDirective))
                else None;
    assert NestScope(st, block, isMethodDefinition, special, useDirective) == Construct(st, o, name);
    if name.Some? {
      NamedPushed(st, o, name.value);
    } else {
      UnnamedPushed(st, o);
    }
  }

  lemma UnnamedPushed(st: State, o: Opening)
    requires Valid(st) && Construct(st, o, None).Success?
    ensures Pushed(st, Construct(st, o, None).value, o.block.nid)
  {
    ValidCurrent(st);
    ConstructOpens(st, o, None);
  }

  lemma NamedPushed(st: State, o: Opening, name: Opening)
    requires Valid(st) && OwnsVariables(name.scopeType) && Construct(st, o, Some(name)).Success?
    requires o.block.nid == name.block.nid
    ensures Pushed(st, Construct(st, o, Some(name)).value, o.block.nid)
  {
    ValidCurrent(st);
    ConstructOpens(st, o, Some(name));
    ConstructNameScope(st, o, Some(name));
  }

  // ---------------------------------------------------------------------
  // Visiting a subtree

  /** `c` is one of the children the visitor walks when it is held by field `i` of `n`. */
  lemma InChildren(n: Node, i: nat, c: Node)
    requires i < |Fields(n)| && c in FieldNodes(Fields(n)[i])
    ensures c in Children(n)
  {
    FlattenHas(Fields(n), i, c);
  }

  lemma {:induction false} FlattenHas(fs: seq<Field>, i: nat, c: Node)
    requires i < |fs| && c in FieldNodes(fs[i])
    ensures c in Flatten(fs)
    decreases |fs|
  {
    if i > 0 {
      FlattenHas(fs[1..], i - 1, c);
    }
  }

  /**
   * The ids of subtree `n` are unique and no open scope on the chain from
   * `cur` belongs to a node strictly inside `n`.  The model assumes unique
   * ids of every tree it is given (object identity gives them in JavaScript,
   * but a tree that shares a node object between two places does not).
   */
  ghost predicate Entering(scopes: seq<Scope>, cur: Option<ScopeId>, n: Node)
  {
    Tree(n) && Outside(scopes, cur, Ids(n) - {n.nid})
  }

  /** As `Entering`, and no open scope belongs to `n` itself either. */
  ghost predicate Clear(scopes: seq<Scope>, cur: Option<ScopeId>, n: Node)
  {
    Tree(n) && Outside(scopes, cur, Ids(n))
  }

  /** Midway through a handler for `n`: the chain is enterable for `n`, and closing `n` leads to `goal`. */
  ghost predicate Ready(st: State, n: Node, goal: Option<ScopeId>)
  {
    Entering(st.scopes, st.current, n) && Pop(st.scopes, st.current, n.nid) == goal
  }

  lemma ClearFresh(scopes: seq<Scope>, cur: Option<ScopeId>, n: Node)
    requires Clear(scopes, cur, n)
    ensures Entering(scopes, cur, n) && Pop(scopes, cur, n.nid) == cur
  {
    OutsideSub(scopes, cur, Ids(n), Ids(n) - {n.nid});
    OutsidePop(scopes, cur, Ids(n), n.nid);
  }

  /** A child of a fresh subtree finds the chain clear of all its nodes. */
  lemma ReadyChild(st: State, n: Node, goal: Option<ScopeId>, c: Node)
    requires Ready(st, n, goal) && c in Children(n)
    ensures Clear(st.scopes, st.current, c) && Entering(st.scopes, st.current, c)
    ensures Pop(st.scopes, st.current, c.nid) == st.current
  {
    ChildIds(n, c);
    assert n.nid !in Ids(c);
    OutsideSub(st.scopes, st.current, Ids(n) - {n.nid}, Ids(c));
    ClearFresh(st.scopes, st.current, c);
  }

  lemma ReadyKept(a: State, b: State, n: Node, goal: Option<ScopeId>)
    requires Valid(a) && Grows(a, b) && b.current == a.current && Ready(a, n, goal)
    ensures Ready(b, n, goal)
  {
    OutsideKept(a, b, a.current, Ids(n) - {n.nid});
    ValidUppers(a);
    ValidCurrent(a);
    PopKept(a, b, a.current, n.nid);
  }

  /** Opening the scopes of `n` keeps the handler ready: closing `n` later leaves them all. */
  lemma ReadyPushed(a: State, r: State, n: Node, goal: Option<ScopeId>)
    requires Valid(a) && Grows(a, r) && Pushed(a, r, n.nid) && Ready(a, n, goal)
    ensures Ready(r, n, goal)
  {
    OutsideKept(a, b := r, cur := a.current, ids := Ids(n) - {n.nid});
    PushedOutside(a, r, n.nid, Ids(n) - {n.nid});
    PushedPop(a, r, n.nid);
    ValidUppers(a);
    PopKept(a, r, a.current, n.nid);
  }

  lemma ReadyClose(st: State, n: Node, goal: Option<ScopeId>, optimistic: bool)
    requires Valid(st) && Ready(st, n, goal)
    ensures CloseFrom(st, n.nid, optimistic).current == goal
  {
    CloseFromPops(st, n.nid, optimistic);
  }

  /**
   * The TDZ scope of a `for (let … in/of right)`: opened for `right` inside
   * the handler for `n`; the visit of `right` finds no scope of its own open
   * but that one.
   */
  lemma TdzFresh(a: State, r: State, n: Node, goal: Option<ScopeId>, c: Node)
    requires Valid(a) && Grows(a, r) && Pushed(a, r, c.nid) && Ready(a, n, goal) && c in Children(n)
    ensures Entering(r.scopes, r.current, c)
  {
    ReadyChild(a, n, goal, c);
    OutsideKept(a, r, a.current, Ids(c));
    OutsideSub(r.scopes, a.current, Ids(c), Ids(c) - {c.nid});
    PushedOutside(a, r, c.nid, Ids(c) - {c.nid});
  }

  /** … and `close(right)` after that visit returns to the scope that was current before the TDZ scope. */
  lemma TdzReturns(a: State, r: State, s: State, n: Node, goal: Option<ScopeId>, c: Node, optimistic: bool)
    requires Valid(a) && Valid(r) && Valid(s) && Grows(a, r) && Grows(r, s) && Pushed(a, r, c.nid)
    requires Ready(a, n, goal) && c in Children(n)
    requires s.current == r.current || s.current == Pop(r.scopes, r.current, c.nid)
    ensures CloseFrom(s, c.nid, optimistic).current == a.current
  {
    ReadyChild(a, n, goal, c);
    ValidUppers(a);
    ValidCurrent(a);
    PushedPop(a, r, c.nid);
    PopKept(a, r, a.current, c.nid);
    assert Pop(r.scopes, r.current, c.nid) == a.current;
    CloseFromPops(s, c.nid, optimistic);
    GrowsTrans(a, r, s);
    PopKept(a, s, a.current, c.nid);
    if s.current == r.current {
      ValidUppers(r);
      PopKept(r, s, r.current, c.nid);
    }
  }

  // ---------------------------------------------------------------------
  // The VariableDeclaration handler

  /**
   * The scope a VariableDeclaration defines its names on: the current
   * scope's variable scope for `var`, the current scope itself (possibly
   * none) for `let` and `const`.
   */
  function DeclarationTarget(st: State, kind: DeclKind): (r: Result<Option<ScopeId>, Error>)
    requires Valid(st)
    ensures r.Failure? <==> kind == Var && st.current.None?
    ensures r.Success? ==> InRange(st, r.value)
    ensures r.Success? && kind == Var ==> r.value == Some(st.scopes[st.current.value].variableScope)
    ensures r.Success? && kind != Var ==> r.value == st.current
  {
    ValidCurrent(st);
    if kind != Var then Success(st.current)
    else if st.current.None? then Failure(NoCurrentScope)
    else Success(Some(CurrentVariableScope(st)))
  }

  /** Later growth that keeps the current scope keeps the pushed scopes as they were opened. */
  lemma PushedKept(a: State, r: State, s: State, nid: NodeId)
    requires Pushed(a, r, nid) && Grows(r, s) && s.current == r.current
    ensures Pushed(a, s, nid)
  {
    var k := r.current.value;
    assert ScopeGrows(r.scopes[k], s.scopes[k]);
    if r.scopes[k].upper.Some? {
      assert ScopeGrows(r.scopes[r.scopes[k].upper.value], s.scopes[r.scopes[k].upper.value]);
    }
  }

  // ---------------------------------------------------------------------
  // The children each handler visits

  lemma MemberChildren(n: Node)
    requires n.MemberExpression?
    ensures n.obj in Children(n) && n.property in Children(n)
  {
    InChildren(n, 0, n.obj);
    InChildren(n, 1, n.property);
  }

  lemma KeyValueChildren(n: Node)
    requires n.Property? || n.MethodDefinition?
    ensures n.key in Children(n) && n.value in Children(n)
  {
    InChildren(n, 0, n.key);
    InChildren(n, 1, n.value);
  }

  lemma WithChildren(n: Node)
    requires n.WithStatement?
    ensures n.obj in Children(n) && n.body in Children(n)
  {
    InChildren(n, 0, n.obj);
    InChildren(n, 1, n.body);
  }

  lemma SwitchChildren(n: Node)
    requires n.SwitchStatement?
    ensures n.discriminant in Children(n) && forall c :: c in n.cases ==> c in Children(n)
  {
    InChildren(n, 0, n.discriminant);
    forall c | c in n.cases ensures c in Children(n) {
      InChildren(n, 1, c);
    }
  }

  lemma CatchChildren(n: Node)
    requires n.CatchClause?
    ensures n.param in Children(n) && n.body in Children(n)
  {
    InChildren(n, 0, n.param);
    InChildren(n, 1, n.body);
  }

  lemma ForInChildren(n: Node)
    requires n.ForInStatement? || n.ForOfStatement?
    ensures n.left in Children(n) && n.right in Children(n) && n.body in Children(n)
  {
    InChildren(n, 0, n.left);
    InChildren(n, 1, n.right);
    InChildren(n, 2, n.body);
  }

  lemma FunctionChildren(n: Node)
    requires n.FunctionDeclaration? || n.FunctionExpression? || n.ArrowFunctionExpression?
    ensures n.body in Children(n)
  {
    if n.ArrowFunctionExpression? {
      InChildren(n, 1, n.body);
    } else {
      InChildren(n, 2, n.body);
    }
  }

  lemma ClassChildren(n: Node)
    requires n.ClassDeclaration? || n.ClassExpression?
    ensures n.superClass.Some? ==> n.superClass.value in Children(n)
    ensures n.body in Children(n)
  {
    if n.superClass.Some? {
      InChildren(n, 1, n.superClass.value);
    }
    InChildren(n, 2, n.body);
  }

  lemma AssignmentChildren(n: Node)
    requires n.AssignmentExpression?
    ensures n.left in Children(n) && n.right in Children(n)
  {
    InChildren(n, 0, n.left);
    InChildren(n, 1, n.right);
  }

  lemma DeclarationChildren(n: Node, i: nat)
    requires n.VariableDeclaration? && i < |n.declarations|
    ensures n.declarations[i] in Children(n)
    ensures n.declarations[i].VariableDeclarator? && n.declarations[i].init.Some? ==>
      n.declarations[i].init.value in Children(n.declarations[i])
  {
    InChildren(n, 0, n.declarations[i]);
    var d := n.declarations[i];
    if d.VariableDeclarator? && d.init.Some? {
      InChildren(d, 1, d.init.value);
    }
  }

  lemma ExportChildren(n: Node)
    requires n.ExportDeclaration?
    ensures n.declaration.Some? ==> n.declaration.value in Children(n)
  {
    if n.declaration.Some? {
      InChildren(n, 0, n.declaration.value);
    }
  }

  lemma ExportSpecifierChildren(n: Node)
    requires n.ExportSpecifier?
    ensures n.id.Some? ==> n.id.value in Children(n)
  {
    if n.id.Some? {
      InChildren(n, 0, n.id.value);
    }
  }
}
