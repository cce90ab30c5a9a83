/**
 * The Referencer of lib/referencer.js: the esrecurse visitor that walks the
 * program once.  It opens a scope at every node that introduces one (through
 * the ScopeManager's `__nestScope`), defines the names declarations and
 * parameters bind, records every Identifier it meets as a reference (a
 * READ, or a WRITE for assignment targets), reports `this` and direct calls
 * to eval, and closes the scopes of a node when it leaves the node.
 *
 * A step that throws in the source (a TypeError on a null current scope or a
 * null node, a failed assertion in a Scope constructor) makes the visit
 * return `Fail`, and no handler continues after a failure.
 *
 * Every handler keeps the ScopeManager's invariant and only lets the state
 * grow.  Under the assumption that node ids are unique within the visited
 * subtree and that no open scope belongs to a node inside it, a handler that
 * opens scopes for its node closes exactly those, and every other handler
 * leaves the current scope as it found it.
 */
module Visitor {
  import opened Base
  import opened Ast
  import opened Scopes
  import opened Closing
  import opened Nesting
  import opened Queries
  import opened Manager
  import opened Patterns
  import opened Bindings
  import opened Steps
  import opened Imports
  import opened Handlers

  class Referencer {
    const manager: ScopeManager
    var isInnerMethodDefinition: bool

    constructor (manager: ScopeManager)
      ensures this.manager == manager && !isInnerMethodDefinition
    {
      this.manager := manager;
      isInnerMethodDefinition := false;
    }

    // -------------------------------------------------------------------
    // The pattern callbacks, one call per reported identifier

    /** A defining callback: `s.__define(pattern, def)` for each identifier. */
    method DefineTargets(s: Option<ScopeId>, ts: seq<Target>, tpl: DefTemplate) returns (r: Outcome<Error>)
      requires manager.Inv() && InRange(manager.Snap(), s)
      modifies manager
      ensures var e := DefineAll(old(manager.Snap()), s, ts, tpl);
        && (e.Success? ==> r.Pass? && manager.Snap() == e.value)
        && (e.Failure? ==> r == Fail(e.error) && manager.Snap() == old(manager.Snap()))
      ensures manager.Inv() && Grows(old(manager.Snap()), manager.Snap()) && Local(old(manager.Snap()), manager.Snap())
    {
      ghost var st0 := manager.Snap();
      GrowsRefl(st0);
      DefineAllFails(st0, s, ts, tpl);
      if ts == [] {
        return Pass;
      }
      if s.None? {
        return Fail(NoCurrentScope);
      }
      var i := 0;
      assert ts[..0] == [];
      while i < |ts|
        invariant 0 <= i <= |ts|
        invariant DefineAll(st0, s, ts[..i], tpl).Success?
        invariant manager.Snap() == DefineAll(st0, s, ts[..i], tpl).value
      {
        DefineAllNext(st0, s, ts, i, tpl);
        manager.Define(s.value, Some(ts[i].id), DefFor(tpl, ts[i].id));
        i := i + 1;
      }
      assert ts[..|ts|] == ts;
      r := Pass;
    }

    /** A writing callback: `currentScope().__referencing(pattern, WRITE, …)` for each identifier. */
    method WriteTargets(ts: seq<Target>, w: WriteRule) returns (r: Outcome<Error>)
      requires manager.Inv()
      modifies manager
      ensures var e := WriteAll(old(manager.Snap()), ts, w);
        && (e.Success? ==> r.Pass? && manager.Snap() == e.value)
        && (e.Failure? ==> r == Fail(e.error) && manager.Snap() == old(manager.Snap()))
      ensures manager.Inv() && Grows(old(manager.Snap()), manager.Snap()) && Local(old(manager.Snap()), manager.Snap())
    {
      ghost var st0 := manager.Snap();
      GrowsRefl(st0);
      WriteAllFails(st0, ts, w);
      if ts == [] {
        return Pass;
      }
      if manager.current.None? {
        return Fail(NoCurrentScope);
      }
      var c := manager.current.value;
      var i := 0;
      assert ts[..0] == [];
      while i < |ts|
        invariant 0 <= i <= |ts|
        invariant WriteAll(st0, ts[..i], w).Success?
        invariant manager.Snap() == WriteAll(st0, ts[..i], w).value && manager.current == Some(c)
      {
        WriteAllNext(st0, ts, i, w);
        WriteOne(ts[i], w);
        i := i + 1;
      }
      assert ts[..|ts|] == ts;
      r := Pass;
    }

    /** One call of a writing callback. */
    method WriteOne(t: Target, w: WriteRule)
      requires manager.Inv() && manager.current.Some?
      modifies manager
      ensures WriteStep(old(manager.Snap()), t, w).Success?
      ensures manager.Snap() == WriteStep(old(manager.Snap()), t, w).value
    {
      ValidCurrent(manager.Snap());
      var c := manager.current.value;
      manager.Referencing(c, Some(t.id), Some(Write), w.writeExpr, ImplicitFor(w, t, manager.scopes[c].isStrict),
                          w.allPartial || !t.toplevel);
    }

    /** One call of the `visitVariableDeclaration` callback. */
    method DeclareOne(s: ScopeId, t: Target, tpl: DefTemplate, init: Option<Handle>)
      requires manager.Inv() && s < |manager.scopes| && (init.Some? ==> manager.current.Some?)
      modifies manager
      ensures DeclareStep(old(manager.Snap()), Some(s), t, tpl, init).Success?
      ensures manager.Snap() == DeclareStep(old(manager.Snap()), Some(s), t, tpl, init).value
    {
      ghost var st0 := manager.Snap();
      manager.Define(s, Some(t.id), DefFor(tpl, t.id));
      if init.Some? {
        WriteOne(t, WriteRule(init, None, false));
      }
    }

    /** The `visitVariableDeclaration` callback: define on `s`, then write the initialiser when there is one. */
    method DeclareTargets(s: Option<ScopeId>, ts: seq<Target>, tpl: DefTemplate, init: Option<Handle>) returns (r: Outcome<Error>)
      requires manager.Inv() && InRange(manager.Snap(), s)
      modifies manager
      ensures var e := DeclareAll(old(manager.Snap()), s, ts, tpl, init);
        && (e.Success? ==> r.Pass? && manager.Snap() == e.value)
        && (e.Failure? ==> r == Fail(e.error))
      ensures manager.Inv() && Grows(old(manager.Snap()), manager.Snap()) && Local(old(manager.Snap()), manager.Snap())
    {
      ghost var st0 := manager.Snap();
      GrowsRefl(st0);
      DeclareAllFails(st0, s, ts, tpl, init);
      if ts == [] {
        return Pass;
      }
      if s.None? || (init.Some? && manager.current.None?) {
        return Fail(NoCurrentScope);
      }
      var i := 0;
      assert ts[..0] == [];
      while i < |ts|
        invariant 0 <= i <= |ts|
        invariant DeclareAll(st0, s, ts[..i], tpl, init).Success?
        invariant manager.Snap() == DeclareAll(st0, s, ts[..i], tpl, init).value
        invariant manager.Inv() && |manager.scopes| == |st0.scopes| && manager.current == st0.current
      {
        DeclareAllNext(st0, s, ts, i, tpl, init);
        ghost var m := manager.Snap();
        DeclareOne(s.value, ts[i], tpl, init);
        assert manager.Snap() == DeclareStep(m, s, ts[i], tpl, init).value;
        i := i + 1;
      }
      assert ts[..|ts|] == ts;
      r := Pass;
    }

    // -------------------------------------------------------------------
    // Opening and closing

    /** `close(node)`: `__close` the current scope for as long as its block is `n`. */
    method Close(n: Node, ghost goal: Option<ScopeId>)
      requires manager.Inv()
      modifies manager
      ensures manager.Snap() == CloseFrom(old(manager.Snap()), n.nid, manager.options.optimistic)
      ensures manager.Inv() && Grows(old(manager.Snap()), manager.Snap())
      ensures Ready(old(manager.Snap()), n, goal) ==> manager.current == goal
    {
      ghost var st0 := manager.Snap();
      ghost var closed := CloseFrom(st0, n.nid, manager.options.optimistic);
      if Ready(st0, n, goal) {
        ReadyClose(st0, n, goal, manager.options.optimistic);
      }
      GrowsRefl(st0);
      ValidCurrent(st0);
      while manager.current.Some? && manager.scopes[manager.current.value].block.nid == n.nid
        invariant manager.Inv() && Grows(st0, manager.Snap())
        invariant manager.current.Some? ==> manager.current.value < |manager.scopes|
        invariant CloseFrom(manager.Snap(), n.nid, manager.options.optimistic) == closed
        decreases if manager.current.Some? then manager.current.value + 1 else 0
      {
        ghost var before := manager.Snap();
        var c := manager.current.value;
        assert ChainOpen(manager.scopes, c);
        manager.Close(c);
        GrowsTrans(st0, before, manager.Snap());
        ValidCurrent(manager.Snap());
      }
    }

    /** `__nestScope(block, …)` of the ScopeManager, with what the visit of `block` needs to know about it. */
    method Nest(block: Node, isMethodDefinition: bool, special: SpecialScope, ghost goal: Option<ScopeId>) returns (r: Outcome<Error>)
      requires manager.Inv()
      modifies manager
      ensures manager.Inv() && Grows(old(manager.Snap()), manager.Snap())
      ensures var e := NestScope(old(manager.Snap()), block, isMethodDefinition, special, manager.options.directive);
        && (e.Success? ==> r.Pass? && manager.Snap() == e.value)
        && (e.Failure? ==> r == Fail(e.error) && manager.Snap() == old(manager.Snap()))
      ensures r.Pass? ==> Pushed(old(manager.Snap()), manager.Snap(), block.nid)
      ensures r.Pass? ==>
        && manager.current.Some? && |old(manager.scopes)| <= manager.current.value && manager.current.value == |manager.scopes| - 1
        && OpenedAt(manager.Snap(), manager.current.value, block.nid, TypeOf(special, block))
        && (!NeedsNameScope(block, special) ==>
              manager.current == Some(|old(manager.scopes)|) && |manager.scopes| == |old(manager.scopes)| + 1)
      ensures r.Pass? && Ready(old(manager.Snap()), block, goal) ==> Ready(manager.Snap(), block, goal)
    {
      ghost var st0 := manager.Snap();
      GrowsRefl(st0);
      r := manager.NestScope(block, isMethodDefinition, special);
      if r.Pass? {
        NestScopeOpens(st0, block, isMethodDefinition, special, manager.options.directive);
        NestScopePushed(st0, block, isMethodDefinition, special, manager.options.directive);
        if Ready(st0, block, goal) {
          ReadyPushed(st0, manager.Snap(), block, goal);
        }
      }
    }

    /** `currentScope().__define(node, def)`: a definition on the current scope, which stays current. */
    method DefineHere(node: Option<Handle>, def: Definition, ghost n: Node, ghost goal: Option<ScopeId>)
      requires manager.Inv() && manager.current.Some?
      modifies manager
      ensures manager.current.Some? && manager.current == old(manager.current)
      ensures manager.Snap() == Scopes.Define(old(manager.Snap()), manager.current.value, node, def)
      ensures IsIdent(node) ==> HasDef(manager.Snap(), manager.current.value, node.value.name, def)
      ensures manager.Inv() && Grows(old(manager.Snap()), manager.Snap())
      ensures Ready(old(manager.Snap()), n, goal) ==> Ready(manager.Snap(), n, goal)
    {
      ghost var st0 := manager.Snap();
      ValidCurrent(st0);
      if IsIdent(node) {
        DefineHasDef(st0, manager.current.value, node.value, def);
      }
      manager.Define(manager.current.value, node, def);
      if Ready(st0, n, goal) {
        ReadyKept(st0, manager.Snap(), n, goal);
      }
    }

    // -------------------------------------------------------------------
    // The walk

    /** `visit(node)`: the handler for the node's type, or `visitChildren` for a type without one. */
    method Visit(n: Node) returns (r: Outcome<Error>)
      requires manager.Inv()
      modifies this, manager
      ensures manager.Inv() && Grows(old(manager.Snap()), manager.Snap())
      ensures r.Pass? ==> isInnerMethodDefinition == old(isInnerMethodDefinition)
      ensures r.Pass? && Entering(old(manager.scopes), old(manager.current), n) ==>
        manager.current == old(manager.current) || manager.current == Pop(old(manager.scopes), old(manager.current), n.nid)
      decreases n, 5
    {
      if OpensScope(n) {
        r := VisitOpening(n);
      } else {
        r := VisitPlain(n);
      }
    }

    /** The handlers of the node types that may open scopes for their node. */
    method VisitOpening(n: Node) returns (r: Outcome<Error>)
      requires manager.Inv() && OpensScope(n)
      modifies this, manager
      ensures manager.Inv() && Grows(old(manager.Snap()), manager.Snap())
      ensures r.Pass? ==> isInnerMethodDefinition == old(isInnerMethodDefinition)
      ensures r.Pass? && Entering(old(manager.scopes), old(manager.current), n) ==>
        manager.current == old(manager.current) || manager.current == Pop(old(manager.scopes), old(manager.current), n.nid)
      decreases n, 4
    {
      if n.Program? {
        r := OnProgram(n);
      } else if n.ForStatement? {
        r := OnForStatement(n);
      } else if n.BlockStatement? {
        r := OnBlockStatement(n);
      } else if n.WithStatement? {
        r := OnWithStatement(n);
      } else if n.SwitchStatement? {
        r := OnSwitchStatement(n);
      } else if n.CatchClause? {
        r := OnCatchClause(n);
      } else {
        r := VisitDeclaring(n);
      }
    }

    /** The handlers shared by several node types: `visitClass`, `visitFunction` and `visitForIn`. */
    method VisitDeclaring(n: Node) returns (r: Outcome<Error>)
      requires manager.Inv()
      requires n.ClassExpression? || n.ClassDeclaration? || n.FunctionDeclaration? || n.FunctionExpression? ||
               n.ArrowFunctionExpression? || n.ForInStatement? || n.ForOfStatement?
      modifies this, manager
      ensures manager.Inv() && Grows(old(manager.Snap()), manager.Snap())
      ensures r.Pass? ==> isInnerMethodDefinition == old(isInnerMethodDefinition)
      ensures r.Pass? && Entering(old(manager.scopes), old(manager.current), n) ==>
        manager.current == old(manager.current) || manager.current == Pop(old(manager.scopes), old(manager.current), n.nid)
      decreases n, 3
    {
      if n.ClassExpression? || n.ClassDeclaration? {
        r := VisitClass(n);
      } else if n.ForInStatement? || n.ForOfStatement? {
        r := VisitForIn(n);
      } else {
        r := VisitFunction(n);
      }
    }

    /** The handlers of the other node types, and `visitChildren` for a type without one. */
    method VisitPlain(n: Node) returns (r: Outcome<Error>)
      requires manager.Inv() && !OpensScope(n)
      modifies this, manager
      ensures manager.Inv() && Grows(old(manager.Snap()), manager.Snap())
      ensures r.Pass? ==> isInnerMethodDefinition == old(isInnerMethodDefinition)
      ensures r.Pass? && Entering(old(manager.scopes), old(manager.current), n) ==> manager.current == old(manager.current)
      decreases n, 4
    {
      if BindsOrDetects(n) {
        r := VisitBinding(n);
      } else if ReadsOrSkips(n) {
        r := VisitReading(n);
      } else {
        r := VisitChildren(n);
      }
    }

    /** The handlers that read, skip or walk part of a node. */
    method VisitReading(n: Node) returns (r: Outcome<Error>)
      requires manager.Inv() && ReadsOrSkips(n)
      modifies this, manager
      ensures manager.Inv() && Grows(old(manager.Snap()), manager.Snap())
      ensures r.Pass? ==> isInnerMethodDefinition == old(isInnerMethodDefinition)
      ensures r.Pass? && Entering(old(manager.scopes), old(manager.current), n) ==> manager.current == old(manager.current)
      decreases n, 3
    {
      match n
      case Identifier(_, _) => r := OnIdentifier(n);
      case UpdateExpression(_, _) => r := OnUpdateExpression(n);
      case MemberExpression(_, _, _, _) => r := OnMemberExpression(n);
      case Property(_, _, _, _, _, _) => r := VisitProperty(n);
      case MethodDefinition(_, _, _, _) => r := VisitProperty(n);
      case BreakStatement(_, _) => GrowsRefl(manager.Snap()); r := Pass;
      case ContinueStatement(_, _) => GrowsRefl(manager.Snap()); r := Pass;
      case ThisExpression(_) => r := OnThisExpression(n);
    }

    /** The handlers that bind names, write or detect eval. */
    method VisitBinding(n: Node) returns (r: Outcome<Error>)
      requires manager.Inv() && BindsOrDetects(n)
      modifies this, manager
      ensures manager.Inv() && Grows(old(manager.Snap()), manager.Snap())
      ensures r.Pass? ==> isInnerMethodDefinition == old(isInnerMethodDefinition)
      ensures r.Pass? && Entering(old(manager.scopes), old(manager.current), n) ==> manager.current == old(manager.current)
      decreases n, 3
    {
      match n
      case CallExpression(_, _, _) => r := OnCallExpression(n);
      case VariableDeclaration(_, _, _) => r := OnVariableDeclaration(n);
      case AssignmentExpression(_, _, _, _) => r := OnAssignmentExpression(n);
      case ImportDeclaration(_, _, _) => r := OnImportDeclaration(n);
      case ExportDeclaration(_, _, _, _) => r := OnExportDeclaration(n);
      case ExportSpecifier(_, _, _) => r := OnExportSpecifier(n);
    }

    /** The visit of child `c` (held by field `i` of `n`) in the middle of a handler for `n`. */
    method VisitChild(ghost n: Node, c: Node, ghost goal: Option<ScopeId>) returns (r: Outcome<Error>)
      requires manager.Inv() && c in Children(n)
      modifies this, manager
      ensures manager.Inv() && Grows(old(manager.Snap()), manager.Snap())
      ensures r.Pass? ==> isInnerMethodDefinition == old(isInnerMethodDefinition)
      ensures r.Pass? && Ready(old(manager.Snap()), n, goal) ==>
        Ready(manager.Snap(), n, goal) && manager.current == old(manager.current)
      decreases c, 6
    {
      ghost var st := manager.Snap();
      ghost var ready := Ready(st, n, goal);
      if ready {
        ReadyChild(st, n, goal, c);
      }
      r := Visit(c);
      if r.Pass? && ready {
        ReadyKept(st, manager.Snap(), n, goal);
      }
    }

    /** `visitChildren(node)`: every child, in visitor-key order. */
    method VisitChildren(n: Node) returns (r: Outcome<Error>)
      requires manager.Inv()
      modifies this, manager
      ensures manager.Inv() && Grows(old(manager.Snap()), manager.Snap())
      ensures r.Pass? ==> isInnerMethodDefinition == old(isInnerMethodDefinition)
      ensures r.Pass? && Entering(old(manager.scopes), old(manager.current), n) ==> manager.current == old(manager.current)
      decreases n, 0
    {
      ghost var st0 := manager.Snap();
      ghost var goal := Pop(st0.scopes, st0.current, n.nid);
      GrowsRefl(st0);
      var cs := Children(n);
      var j := 0;
      while j < |cs|
        invariant 0 <= j <= |cs|
        invariant manager.Inv() && Grows(st0, manager.Snap())
        invariant isInnerMethodDefinition == old(isInnerMethodDefinition)
        invariant Ready(st0, n, goal) ==> Ready(manager.Snap(), n, goal) && manager.current == st0.current
      {
        assert cs[j] in cs;
        ghost var m := manager.Snap();
        ghost var ready := Ready(m, n, goal);
        if ready {
          ReadyChild(m, n, goal, cs[j]);
        }
        r := Visit(cs[j]);
        GrowsTrans(st0, m, manager.Snap());
        if r.Fail? {
          return;
        }
        if ready {
          ReadyKept(m, manager.Snap(), n, goal);
        }
        j := j + 1;
      }
      r := Pass;
    }

    // -------------------------------------------------------------------
    // Handlers that leave the current scope alone

    /** `Identifier`: a READ reference from the current scope. */
    method OnIdentifier(n: Node) returns (r: Outcome<Error>)
      requires manager.Inv() && n.Identifier?
      modifies manager
      ensures var e := ReadStep(old(manager.Snap()), HandleOf(n));
        && (e.Success? ==> r.Pass? && manager.Snap() == e.value)
        && (e.Failure? ==> r == Fail(e.error) && manager.Snap() == old(manager.Snap()))
      ensures manager.Inv() && Grows(old(manager.Snap()), manager.Snap()) && manager.current == old(manager.current)
    {
      GrowsRefl(manager.Snap());
      if manager.current.None? {
        return Fail(NoCurrentScope);
      }
      ValidCurrent(manager.Snap());
      manager.Referencing(manager.current.value, Some(HandleOf(n)), None, None, None, false);
      r := Pass;
    }

    /** `ThisExpression`: the current scope's variable scope has seen `this`. */
    method OnThisExpression(n: Node) returns (r: Outcome<Error>)
      requires manager.Inv() && n.ThisExpression?
      modifies manager
      ensures var e := ThisStep(old(manager.Snap()));
        && (e.Success? ==> r.Pass? && manager.Snap() == e.value)
        && (e.Failure? ==> r == Fail(e.error) && manager.Snap() == old(manager.Snap()))
      ensures manager.Inv() && Grows(old(manager.Snap()), manager.Snap()) && manager.current == old(manager.current)
    {
      GrowsRefl(manager.Snap());
      if manager.current.None? {
        return Fail(NoCurrentScope);
      }
      manager.DetectThis(CurrentVariableScope(manager.Snap()));
      r := Pass;
    }

    /**
     * `UpdateExpression`.  The handler asks `isPattern` of the UpdateExpression
     * node itself, which is never a pattern, so it always visits the children:
     * `x++` leaves one plain READ reference to `x` and no write.
     */
    method OnUpdateExpression(n: Node) returns (r: Outcome<Error>)
      requires manager.Inv() && n.UpdateExpression?
      modifies this, manager
      ensures manager.Inv() && Grows(old(manager.Snap()), manager.Snap())
      ensures r.Pass? ==> isInnerMethodDefinition == old(isInnerMethodDefinition)
      ensures r.Pass? && Entering(old(manager.scopes), old(manager.current), n) ==> manager.current == old(manager.current)
      ensures n.argument.Identifier? ==>
        var e := ReadStep(old(manager.Snap()), HandleOf(n.argument));
        && (e.Success? ==> r.Pass? && manager.Snap() == e.value)
        && (e.Failure? ==> r == Fail(e.error) && manager.Snap() == old(manager.Snap()))
      decreases n, 2
    {
      assert !IsPattern(n);
      if n.argument.Identifier? {
        // visitChildren of `x++` is the visit of its one child, the Identifier `x`.
        r := OnIdentifier(n.argument);
      } else {
        r := VisitChildren(n);
      }
    }

    /** `MemberExpression`: the object, and the property only when it is computed (`a[b]`, not `a.b`). */
    method OnMemberExpression(n: Node) returns (r: Outcome<Error>)
      requires manager.Inv() && n.MemberExpression?
      modifies this, manager
      ensures manager.Inv() && Grows(old(manager.Snap()), manager.Snap())
      ensures r.Pass? ==> isInnerMethodDefinition == old(isInnerMethodDefinition)
      ensures r.Pass? && Entering(old(manager.scopes), old(manager.current), n) ==> manager.current == old(manager.current)
      ensures n.obj.Identifier? && !n.computed ==>
        var e := ReadStep(old(manager.Snap()), HandleOf(n.obj));
        && (e.Success? ==> r.Pass? && manager.Snap() == e.value)
        && (e.Failure? ==> r == Fail(e.error) && manager.Snap() == old(manager.Snap()))
      ensures n.obj.Identifier? && old(manager.current).None? ==> r == Fail(NoCurrentScope)
      decreases n, 2
    {
      ghost var st0 := manager.Snap();
      ghost var goal := Pop(st0.scopes, st0.current, n.nid);
      MemberChildren(n);
      if n.obj.Identifier? {
        // The visit of an Identifier object is the Identifier handler.
        r := OnIdentifier(n.obj);
        ReadStepReads(st0, HandleOf(n.obj));
        if r.Pass? && Ready(st0, n, goal) {
          ReadyKept(st0, manager.Snap(), n, goal);
        }
      } else {
        r := VisitChild(n, n.obj, goal);
      }
      if r.Fail? || !n.computed {
        return;
      }
      ghost var m := manager.Snap();
      r := VisitChild(n, n.property, goal);
      GrowsTrans(st0, m, manager.Snap());
    }

    /**
     * `visitProperty`: a computed key, then the value; the value of a method
     * is visited with `isInnerMethodDefinition` set, and the flag is restored.
     */
    method VisitProperty(n: Node) returns (r: Outcome<Error>)
      requires manager.Inv() && (n.Property? || n.MethodDefinition?)
      modifies this, manager
      ensures manager.Inv() && Grows(old(manager.Snap()), manager.Snap())
      ensures r.Pass? ==> isInnerMethodDefinition == old(isInnerMethodDefinition)
      ensures r.Pass? && Entering(old(manager.scopes), old(manager.current), n) ==> manager.current == old(manager.current)
      decreases n, 2
    {
      ghost var st0 := manager.Snap();
      ghost var goal := Pop(st0.scopes, st0.current, n.nid);
      GrowsRefl(st0);
      KeyValueChildren(n);
      if n.computed {
        r := VisitChild(n, n.key, goal);
        if r.Fail? {
          return;
        }
      }
      ghost var m := manager.Snap();
      var isMethodDefinition := n.MethodDefinition? || n.isMethod;
      var previous := isInnerMethodDefinition;
      if isMethodDefinition {
        isInnerMethodDefinition := true;
      }
      r := VisitChild(n, n.value, goal);
      GrowsTrans(st0, m, manager.Snap());
      if r.Fail? {
        return;
      }
      if isMethodDefinition {
        isInnerMethodDefinition := previous;
      }
    }

    /** `CallExpression`: a direct call to `eval` is reported to the variable scope, then the children are visited. */
    method OnCallExpression(n: Node) returns (r: Outcome<Error>)
      requires manager.Inv() && n.CallExpression?
      modifies this, manager
      ensures manager.Inv() && Grows(old(manager.Snap()), manager.Snap())
      ensures r.Pass? ==> isInnerMethodDefinition == old(isInnerMethodDefinition)
      ensures r.Pass? && Entering(old(manager.scopes), old(manager.current), n) ==> manager.current == old(manager.current)
      ensures r.Pass? && IsDirectEval(n, manager.options) ==>
        old(manager.current).Some? && manager.scopes[CurrentVariableScope(old(manager.Snap()))].directCallToEvalScope
      decreases n, 2
    {
      ghost var st0 := manager.Snap();
      GrowsRefl(st0);
      if IsDirectEval(n, manager.options) {
        if manager.current.None? {
          return Fail(NoCurrentScope);
        }
        var s := CurrentVariableScope(manager.Snap());
        manager.DetectEval(s);
        EvalStepMarks(st0);
      }
      ghost var m := manager.Snap();
      ghost var goal := Pop(st0.scopes, st0.current, n.nid);
      if Ready(st0, n, goal) {
        ReadyKept(st0, m, n, goal);
      }
      r := VisitChildren(n);
      GrowsTrans(st0, m, manager.Snap());
      if r.Pass? && IsDirectEval(n, manager.options) {
        var s := CurrentVariableScope(st0);
        assert ScopeGrows(m.scopes[s], manager.scopes[s]);
      }
    }

    /**
     * `VariableDeclaration`: each declarator binds its names on the target
     * scope (the variable scope for `var`), then its initialiser is visited.
     */
    method OnVariableDeclaration(n: Node) returns (r: Outcome<Error>)
      requires manager.Inv() && n.VariableDeclaration?
      modifies this, manager
      ensures manager.Inv() && Grows(old(manager.Snap()), manager.Snap())
      ensures r.Pass? ==> isInnerMethodDefinition == old(isInnerMethodDefinition)
      ensures r.Pass? && Entering(old(manager.scopes), old(manager.current), n) ==> manager.current == old(manager.current)
      ensures DeclarationTarget(old(manager.Snap()), n.kind).Failure? ==> r == Fail(NoCurrentScope)
      ensures r.Pass? ==> var target := DeclarationTarget(old(manager.Snap()), n.kind);
        target.Success? && forall i :: 0 <= i < |n.declarations| ==> DeclaredAt(manager.Snap(), target.value, n, i)
      decreases n, 2
    {
      ghost var st0 := manager.Snap();
      ghost var goal := Pop(st0.scopes, st0.current, n.nid);
      GrowsRefl(st0);
      var target := DeclarationTarget(manager.Snap(), n.kind);
      if target.Failure? {
        return Fail(target.error);
      }
      var i := 0;
      while i < |n.declarations|
        invariant 0 <= i <= |n.declarations|
        invariant manager.Inv() && Grows(st0, manager.Snap()) && InRange(manager.Snap(), target.value)
        invariant isInnerMethodDefinition == old(isInnerMethodDefinition)
        invariant Ready(st0, n, goal) ==> Ready(manager.Snap(), n, goal) && manager.current == st0.current
        invariant forall j :: 0 <= j < i ==> DeclaredAt(manager.Snap(), target.value, n, j)
      {
        ghost var m := manager.Snap();
        r := DeclareAndVisit(n, i, target.value, goal);
        GrowsTrans(st0, m, manager.Snap());
        if r.Fail? {
          return;
        }
        forall j | 0 <= j <= i ensures DeclaredAt(manager.Snap(), target.value, n, j) {
          if j < i {
            DeclaredAtKept(m, manager.Snap(), target.value, n, j);
          }
        }
        i := i + 1;
      }
      r := Pass;
    }

    /** One turn of the loop over `declarations`: the names of declarator `i`, then its initialiser. */
    method DeclareAndVisit(n: Node, i: nat, target: Option<ScopeId>, ghost goal: Option<ScopeId>) returns (r: Outcome<Error>)
      requires manager.Inv() && n.VariableDeclaration? && i < |n.declarations| && InRange(manager.Snap(), target)
      modifies this, manager
      ensures manager.Inv() && Grows(old(manager.Snap()), manager.Snap()) && InRange(manager.Snap(), target)
      ensures r.Pass? ==> isInnerMethodDefinition == old(isInnerMethodDefinition)
      ensures r.Pass? && Ready(old(manager.Snap()), n, goal) ==>
        Ready(manager.Snap(), n, goal) && manager.current == old(manager.current)
      ensures r.Pass? ==> DeclaredAt(manager.Snap(), target, n, i)
      decreases n, 1
    {
      ghost var st0 := manager.Snap();
      r := VisitVariableDeclaration(target, VariableDef, n, i);
      if r.Fail? {
        return;
      }
      ghost var m := manager.Snap();
      DeclareAllDeclares(st0, target, n, i);
      if Ready(st0, n, goal) {
        ReadyKept(st0, m, n, goal);
      }
      r := VisitInitializer(n, i, goal);
      GrowsTrans(st0, m, manager.Snap());
      if r.Pass? {
        DeclaredAtKept(m, manager.Snap(), target, n, i);
      }
    }

    /** The initialiser of declarator `i`, if it has one, visited in the current scope. */
    method VisitInitializer(n: Node, i: nat, ghost goal: Option<ScopeId>) returns (r: Outcome<Error>)
      requires manager.Inv() && n.VariableDeclaration? && i < |n.declarations|
      modifies this, manager
      ensures manager.Inv() && Grows(old(manager.Snap()), manager.Snap())
      ensures r.Pass? ==> isInnerMethodDefinition == old(isInnerMethodDefinition)
      ensures r.Pass? && Ready(old(manager.Snap()), n, goal) ==>
        Ready(manager.Snap(), n, goal) && manager.current == old(manager.current)
      decreases n, 0
    {
      ghost var m := manager.Snap();
      GrowsRefl(m);
      var decl := n.declarations[i];
      assert decl in n.declarations;
      if decl.VariableDeclarator? && decl.init.Some? {
        ghost var ready := Ready(m, n, goal);
        DeclarationChildren(n, i);
        if ready {
          ReadyChild(m, n, goal, decl);
        }
        r := VisitChild(decl, decl.init.value, m.current);
        if r.Fail? {
          return;
        }
        if ready {
          ReadyKept(m, manager.Snap(), n, goal);
        }
      } else {
        r := Pass;
      }
    }

    /**
     * `visitVariableDeclaration(target, type, node, index)`: the names of
     * declarator `index` are defined on `target`, and written from the
     * current scope when the declarator has an initialiser.
     */
    method VisitVariableDeclaration(target: Option<ScopeId>, defType: DefType, n: Node, index: nat) returns (r: Outcome<Error>)
      requires manager.Inv() && InRange(manager.Snap(), target)
      modifies manager
      ensures var d := Declarator(defType, n, index);
        && (d.Failure? ==> r == Fail(d.error) && manager.Snap() == old(manager.Snap()))
        && (d.Success? ==> var e := DeclareAll(old(manager.Snap()), target, d.value.targets, d.value.tpl, d.value.init);
              && (e.Success? ==> r.Pass? && manager.Snap() == e.value)
              && (e.Failure? ==> r == Fail(e.error)))
      ensures manager.Inv() && Grows(old(manager.Snap()), manager.Snap()) && Local(old(manager.Snap()), manager.Snap())
    {
      GrowsRefl(manager.Snap());
      var d := Declarator(defType, n, index);
      if d.Failure? {
        return Fail(d.error);
      }
      r := DeclareTargets(target, d.value.targets, d.value.tpl, d.value.init);
    }

    /** `AssignmentExpression`: a pattern target is written (or, for `op=`, read and written); then the right side. */
    method OnAssignmentExpression(n: Node) returns (r: Outcome<Error>)
      requires manager.Inv() && n.AssignmentExpression?
      modifies this, manager
      ensures manager.Inv() && Grows(old(manager.Snap()), manager.Snap())
      ensures r.Pass? ==> isInnerMethodDefinition == old(isInnerMethodDefinition)
      ensures r.Pass? && Entering(old(manager.scopes), old(manager.current), n) ==> manager.current == old(manager.current)
      ensures IsPattern(n.left) && AssignStep(old(manager.Snap()), n).Failure? ==>
        r == Fail(AssignStep(old(manager.Snap()), n).error)
      ensures r.Pass? && IsPattern(n.left) && old(manager.current).Some? ==>
        Assigned(manager.Snap(), old(manager.Snap()), old(manager.current).value, n)
      decreases n, 2
    {
      ghost var st0 := manager.Snap();
      ghost var goal := Pop(st0.scopes, st0.current, n.nid);
      GrowsRefl(st0);
      AssignmentChildren(n);
      if IsPattern(n.left) {
        r := AssignPattern(n);
        if r.Fail? {
          return;
        }
        if Ready(st0, n, goal) {
          ReadyKept(st0, manager.Snap(), n, goal);
        }
        if st0.current.Some? {
          AssignStepAssigns(st0, n);
        }
      } else {
        r := VisitChild(n, n.left, goal);
        if r.Fail? {
          return;
        }
      }
      ghost var m := manager.Snap();
      r := VisitChild(n, n.right, goal);
      GrowsTrans(st0, m, manager.Snap());
      if r.Pass? && IsPattern(n.left) && st0.current.Some? {
        AssignedKept(st0, m, manager.Snap(), st0.current.value, n);
      }
    }

    /**
     * The assignment to an Identifier or pattern `left`: `=` writes every
     * bound identifier, partially below the root; a compound operator
     * read-writes `left` itself.
     */
    method AssignPattern(n: Node) returns (r: Outcome<Error>)
      requires manager.Inv() && n.AssignmentExpression? && IsPattern(n.left)
      modifies manager
      ensures var e := AssignStep(old(manager.Snap()), n);
        && (e.Success? ==> r.Pass? && manager.Snap() == e.value)
        && (e.Failure? ==> r == Fail(e.error) && manager.Snap() == old(manager.Snap()))
      ensures manager.Inv() && Grows(old(manager.Snap()), manager.Snap()) && manager.current == old(manager.current)
    {
      if n.operator == "=" {
        var hits := VisitPattern(Some(n.left));
        if hits.Failure? {
          GrowsRefl(manager.Snap());
          return Fail(hits.error);
        }
        r := WriteTargets(TargetsOf(hits.value), WriteRule(Some(HandleOf(n.right)), Some(HandleOf(n)), false));
      } else {
        if manager.current.None? {
          GrowsRefl(manager.Snap());
          return Fail(NoCurrentScope);
        }
        ValidCurrent(manager.Snap());
        manager.Referencing(manager.current.value, Some(HandleOf(n.left)), Some(ReadWrite), Some(HandleOf(n.right)), None, false);
        r := Pass;
      }
    }

    /** `ImportDeclaration`: only in an ES6 module; every imported binding is defined on the current scope. */
    method OnImportDeclaration(n: Node) returns (r: Outcome<Error>)
      requires manager.Inv() && n.ImportDeclaration?
      modifies manager
      ensures manager.Inv() && Grows(old(manager.Snap()), manager.Snap()) && manager.current == old(manager.current)
      ensures !(manager.options.IsES6() && manager.options.sourceModule) ==>
        r == Fail(ImportOutsideModule) && manager.Snap() == old(manager.Snap())
      ensures ImportWalk(n, HandleOf(n)).Failure? && manager.options.IsES6() && manager.options.sourceModule ==>
        r == Fail(ImportWalk(n, HandleOf(n)).error) && manager.Snap() == old(manager.Snap())
      ensures InRange(old(manager.Snap()), old(manager.current))
      ensures var groups := ImportWalk(n, HandleOf(n));
        manager.options.IsES6() && manager.options.sourceModule && groups.Success? ==>
          var e := DefineGroups(old(manager.Snap()), old(manager.current), groups.value, 0);
          && (e.Success? ==> r.Pass? && manager.Snap() == e.value)
          && (e.Failure? ==> r == Fail(e.error))
      ensures r.Pass? ==>
        && ImportWalk(n, HandleOf(n)).Success?
        && (old(manager.current).Some? ==> GroupsBound(manager.Snap(), old(manager.current).value, ImportWalk(n, HandleOf(n)).value, 0))
    {
      ghost var st0 := manager.Snap();
      GrowsRefl(st0);
      ValidCurrent(st0);
      if !(manager.options.IsES6() && manager.options.sourceModule) {
        return Fail(ImportOutsideModule);
      }
      var groups := ImportWalk(n, HandleOf(n));
      if groups.Failure? {
        return Fail(groups.error);
      }
      r := DefineImports(groups.value);
      if st0.current.Some? {
        DefineGroupsDefines(st0, st0.current.value, groups.value, 0);
      }
    }

    /** The loop of `ImportDeclaration`: each group's names defined on the current scope, in order. */
    method DefineImports(gs: seq<ImportGroup>) returns (r: Outcome<Error>)
      requires manager.Inv()
      modifies manager
      ensures InRange(old(manager.Snap()), old(manager.current))
      ensures var e := DefineGroups(old(manager.Snap()), old(manager.current), gs, 0);
        && (e.Success? ==> r.Pass? && manager.Snap() == e.value)
        && (e.Failure? ==> r == Fail(e.error))
      ensures manager.Inv() && Grows(old(manager.Snap()), manager.Snap()) && manager.current == old(manager.current)
    {
      ghost var st0 := manager.Snap();
      GrowsRefl(st0);
      ValidCurrent(st0);
      var j := 0;
      while j < |gs|
        invariant 0 <= j <= |gs|
        invariant manager.Inv() && Grows(st0, manager.Snap()) && manager.current == st0.current
        invariant DefineGroups(st0, st0.current, gs, 0) == DefineGroups(manager.Snap(), st0.current, gs, j)
      {
        ghost var m := manager.Snap();
        ValidCurrent(m);
        r := DefineTargets(manager.current, gs[j].targets, gs[j].tpl);
        GrowsTrans(st0, m, manager.Snap());
        if r.Fail? {
          return;
        }
        j := j + 1;
      }
      r := Pass;
    }

    /** `ExportDeclaration`: nothing for a re-export, the declaration when there is one, else the children. */
    method OnExportDeclaration(n: Node) returns (r: Outcome<Error>)
      requires manager.Inv() && n.ExportDeclaration?
      modifies this, manager
      ensures manager.Inv() && Grows(old(manager.Snap()), manager.Snap())
      ensures r.Pass? ==> isInnerMethodDefinition == old(isInnerMethodDefinition)
      ensures r.Pass? && Entering(old(manager.scopes), old(manager.current), n) ==> manager.current == old(manager.current)
      ensures n.source.Some? ==> r.Pass? && manager.Snap() == old(manager.Snap())
      decreases n, 2
    {
      ghost var st0 := manager.Snap();
      ghost var goal := Pop(st0.scopes, st0.current, n.nid);
      GrowsRefl(st0);
      if n.source.Some? {
        return Pass;
      }
      if n.declaration.Some? {
        ExportChildren(n);
        r := VisitChild(n, n.declaration.value, goal);
      } else {
        r := VisitChildren(n);
      }
    }

    /** `ExportSpecifier`: its `id`, when there is one. */
    method OnExportSpecifier(n: Node) returns (r: Outcome<Error>)
      requires manager.Inv() && n.ExportSpecifier?
      modifies this, manager
      ensures manager.Inv() && Grows(old(manager.Snap()), manager.Snap())
      ensures r.Pass? ==> isInnerMethodDefinition == old(isInnerMethodDefinition)
      ensures r.Pass? && Entering(old(manager.scopes), old(manager.current), n) ==> manager.current == old(manager.current)
      ensures n.id.None? ==> r.Pass? && manager.Snap() == old(manager.Snap())
      ensures n.id.Some? && n.id.value.Identifier? ==>
        var e := ReadStep(old(manager.Snap()), HandleOf(n.id.value));
        && (e.Success? ==> r.Pass? && manager.Snap() == e.value)
        && (e.Failure? ==> r == Fail(e.error) && manager.Snap() == old(manager.Snap()))
      decreases n, 2
    {
      ghost var st0 := manager.Snap();
      ghost var goal := Pop(st0.scopes, st0.current, n.nid);
      GrowsRefl(st0);
      if n.id.Some? && n.id.value.Identifier? {
        // The visit of an Identifier is the Identifier handler.
        r := OnIdentifier(n.id.value);
      } else if n.id.Some? {
        ExportSpecifierChildren(n);
        r := VisitChild(n, n.id.value, goal);
      } else {
        r := Pass;
      }
    }

    // -------------------------------------------------------------------
    // Handlers that open scopes for their node

    /** `Program`: the global scope (and, for an ES6 module, the module scope), the children, then close. */
    method OnProgram(n: Node) returns (r: Outcome<Error>)
      requires manager.Inv() && n.Program?
      modifies this, manager
      ensures manager.Inv() && Grows(old(manager.Snap()), manager.Snap())
      ensures r.Pass? ==> isInnerMethodDefinition == old(isInnerMethodDefinition)
      ensures r.Pass? && Entering(old(manager.scopes), old(manager.current), n) ==>
        manager.current == Pop(old(manager.scopes), old(manager.current), n.nid)
      ensures r.Pass? ==> OpenedAt(manager.Snap(), |old(manager.scopes)|, n.nid, GlobalScope)
      ensures r.Pass? && manager.options.IsES6() && manager.options.sourceModule ==>
        OpenedAt(manager.Snap(), |old(manager.scopes)| + 1, n.nid, ModuleScope)
      decreases n, 2
    {
      ghost var st0 := manager.Snap();
      ghost var goal := Pop(st0.scopes, st0.current, n.nid);
      ghost var k := |old(manager.scopes)|;
      ghost var isModule := manager.options.IsES6() && manager.options.sourceModule;
      r := OpenProgramScopes(n, goal);
      if r.Fail? {
        return;
      }
      ghost var m2 := manager.Snap();
      r := FinishChildren(n, goal);
      GrowsTrans(st0, m2, manager.Snap());
      if r.Pass? {
        OpenedAtKept(m2, manager.Snap(), k, n.nid, GlobalScope);
        if isModule {
          OpenedAtKept(m2, manager.Snap(), k + 1, n.nid, ModuleScope);
        }
      }
    }

    /** The scopes of `Program`: the global scope, then the module scope of an ES6 module. */
    method OpenProgramScopes(n: Node, ghost goal: Option<ScopeId>) returns (r: Outcome<Error>)
      requires manager.Inv() && n.Program?
      modifies manager
      ensures manager.Inv() && Grows(old(manager.Snap()), manager.Snap())
      ensures r.Pass? && Ready(old(manager.Snap()), n, goal) ==> Ready(manager.Snap(), n, goal)
      ensures r.Pass? ==> OpenedAt(manager.Snap(), |old(manager.scopes)|, n.nid, GlobalScope)
      ensures r.Pass? && manager.options.IsES6() && manager.options.sourceModule ==>
        OpenedAt(manager.Snap(), |old(manager.scopes)| + 1, n.nid, ModuleScope)
    {
      ghost var st0 := manager.Snap();
      ghost var k := |old(manager.scopes)|;
      NormalTypeOf(n);
      r := Nest(n, false, Normal, goal);
      if r.Fail? {
        return;
      }
      ghost var m := manager.Snap();
      assert OpenedAt(m, k, n.nid, GlobalScope) && |m.scopes| == k + 1;
      ModuleTypeOf(n);
      if manager.options.IsES6() && manager.options.sourceModule {
        assert !NeedsNameScope(n, Module);
        r := Nest(n, false, Module, goal);
        ghost var m2 := manager.Snap();
        GrowsTrans(st0, m, m2);
        if r.Fail? {
          return;
        }
        assert m2.current == Some(k + 1) && OpenedAt(m2, k + 1, n.nid, ModuleScope);
        OpenedAtKept(m, m2, k, n.nid, GlobalScope);
      }
    }

    /** The common tail of handlers: the children of `n`, then `close(n)`. */
    method FinishChildren(n: Node, ghost goal: Option<ScopeId>) returns (r: Outcome<Error>)
      requires manager.Inv()
      modifies this, manager
      ensures manager.Inv() && Grows(old(manager.Snap()), manager.Snap())
      ensures r.Pass? ==> isInnerMethodDefinition == old(isInnerMethodDefinition)
      ensures r.Pass? && Ready(old(manager.Snap()), n, goal) ==> manager.current == goal
      decreases n, 1
    {
      ghost var st0 := manager.Snap();
      ghost var entering := Entering(manager.scopes, manager.current, n);
      r := VisitChildren(n);
      if r.Fail? {
        return;
      }
      ghost var m := manager.Snap();
      if Ready(st0, n, goal) {
        assert entering && m.current == st0.current;
        ReadyKept(st0, m, n, goal);
      }
      Close(n, goal);
      GrowsTrans(st0, m, manager.Snap());
    }

    /** The common tail: child `c` of `n`, then `close(n)`. */
    method FinishChild(n: Node, c: Node, ghost goal: Option<ScopeId>) returns (r: Outcome<Error>)
      requires manager.Inv() && c in Children(n)
      modifies this, manager
      ensures manager.Inv() && Grows(old(manager.Snap()), manager.Snap())
      ensures r.Pass? ==> isInnerMethodDefinition == old(isInnerMethodDefinition)
      ensures r.Pass? && Ready(old(manager.Snap()), n, goal) ==> manager.current == goal
      decreases c, 7
    {
      ghost var st0 := manager.Snap();
      r := VisitChild(n, c, goal);
      if r.Fail? {
        return;
      }
      ghost var m := manager.Snap();
      Close(n, goal);
      GrowsTrans(st0, m, manager.Snap());
    }

    /** `ForStatement`: a scope only for a `let`/`const` head; the children; close. */
    method OnForStatement(n: Node) returns (r: Outcome<Error>)
      requires manager.Inv() && n.ForStatement?
      modifies this, manager
      ensures manager.Inv() && Grows(old(manager.Snap()), manager.Snap())
      ensures r.Pass? ==> isInnerMethodDefinition == old(isInnerMethodDefinition)
      ensures r.Pass? && Entering(old(manager.scopes), old(manager.current), n) ==>
        manager.current == Pop(old(manager.scopes), old(manager.current), n.nid)
      ensures r.Pass? && n.init.Some? && n.init.value.VariableDeclaration? && n.init.value.kind != Var ==>
        OpenedAt(manager.Snap(), |old(manager.scopes)|, n.nid, ForScope)
      decreases n, 2
    {
      ghost var st0 := manager.Snap();
      ghost var goal := Pop(st0.scopes, st0.current, n.nid);
      GrowsRefl(st0);
      NormalTypeOf(n);
      if n.init.Some? && n.init.value.VariableDeclaration? && n.init.value.kind != Var {
        r := Nest(n, false, Normal, goal);
        if r.Fail? {
          return;
        }
      }
      ghost var m := manager.Snap();
      r := FinishChildren(n, goal);
      GrowsTrans(st0, m, manager.Snap());
      if r.Pass? && n.init.Some? && n.init.value.VariableDeclaration? && n.init.value.kind != Var {
        OpenedAtKept(m, manager.Snap(), |st0.scopes|, n.nid, ForScope);
      }
    }

    /** `BlockStatement`: a block scope in ES6; the children; close. */
    method OnBlockStatement(n: Node) returns (r: Outcome<Error>)
      requires manager.Inv() && n.BlockStatement?
      modifies this, manager
      ensures manager.Inv() && Grows(old(manager.Snap()), manager.Snap())
      ensures r.Pass? ==> isInnerMethodDefinition == old(isInnerMethodDefinition)
      ensures r.Pass? && Entering(old(manager.scopes), old(manager.current), n) ==>
        manager.current == Pop(old(manager.scopes), old(manager.current), n.nid)
      ensures r.Pass? && manager.options.IsES6() ==> OpenedAt(manager.Snap(), |old(manager.scopes)|, n.nid, BlockScope)
      decreases n, 2
    {
      ghost var st0 := manager.Snap();
      ghost var goal := Pop(st0.scopes, st0.current, n.nid);
      GrowsRefl(st0);
      NormalTypeOf(n);
      if manager.options.IsES6() {
        r := Nest(n, false, Normal, goal);
        if r.Fail? {
          return;
        }
      }
      ghost var m := manager.Snap();
      r := FinishChildren(n, goal);
      GrowsTrans(st0, m, manager.Snap());
      if r.Pass? && manager.options.IsES6() {
        OpenedAtKept(m, manager.Snap(), |st0.scopes|, n.nid, BlockScope);
      }
    }

    /** `WithStatement`: the object outside, then the with scope around the body. */
    method OnWithStatement(n: Node) returns (r: Outcome<Error>)
      requires manager.Inv() && n.WithStatement?
      modifies this, manager
      ensures manager.Inv() && Grows(old(manager.Snap()), manager.Snap())
      ensures r.Pass? ==> isInnerMethodDefinition == old(isInnerMethodDefinition)
      ensures r.Pass? && Entering(old(manager.scopes), old(manager.current), n) ==>
        manager.current == Pop(old(manager.scopes), old(manager.current), n.nid)
      ensures r.Pass? ==> exists k :: |old(manager.scopes)| <= k && OpenedAt(manager.Snap(), k, n.nid, WithScope)
      decreases n, 2
    {
      ghost var st0 := manager.Snap();
      ghost var goal := Pop(st0.scopes, st0.current, n.nid);
      WithChildren(n);
      r := VisitChild(n, n.obj, goal);
      if r.Fail? {
        return;
      }
      ghost var m := manager.Snap();
      NormalTypeOf(n);
      r := Nest(n, false, Normal, goal);
      GrowsTrans(st0, m, manager.Snap());
      if r.Fail? {
        return;
      }
      ghost var m2 := manager.Snap();
      ghost var k := |m.scopes|;
      r := FinishChild(n, n.body, goal);
      GrowsTrans(st0, m2, manager.Snap());
      if r.Pass? {
        OpenedAtKept(m2, manager.Snap(), k, n.nid, WithScope);
      }
    }

    /** `SwitchStatement`: the discriminant outside, then the switch scope (in ES6) around the cases. */
    method OnSwitchStatement(n: Node) returns (r: Outcome<Error>)
      requires manager.Inv() && n.SwitchStatement?
      modifies this, manager
      ensures manager.Inv() && Grows(old(manager.Snap()), manager.Snap())
      ensures r.Pass? ==> isInnerMethodDefinition == old(isInnerMethodDefinition)
      ensures r.Pass? && Entering(old(manager.scopes), old(manager.current), n) ==>
        manager.current == Pop(old(manager.scopes), old(manager.current), n.nid)
      ensures r.Pass? && manager.options.IsES6() ==>
        exists k :: |old(manager.scopes)| <= k && OpenedAt(manager.Snap(), k, n.nid, SwitchScope)
      decreases n, 2
    {
      ghost var st0 := manager.Snap();
      ghost var goal := Pop(st0.scopes, st0.current, n.nid);
      SwitchChildren(n);
      r := VisitChild(n, n.discriminant, goal);
      if r.Fail? {
        return;
      }
      ghost var m := manager.Snap();
      ghost var k;
      r, k := SwitchInside(n, goal);
      GrowsTrans(st0, m, manager.Snap());
      if r.Pass? && manager.options.IsES6() {
        assert |st0.scopes| <= k && OpenedAt(manager.Snap(), k, n.nid, SwitchScope);
      }
    }

    /** What `SwitchStatement` does after the discriminant: the switch scope (ES6 only), the cases; `k` is that scope. */
    method SwitchInside(n: Node, ghost goal: Option<ScopeId>) returns (r: Outcome<Error>, ghost k: nat)
      requires manager.Inv() && n.SwitchStatement?
      modifies this, manager
      ensures manager.Inv() && Grows(old(manager.Snap()), manager.Snap())
      ensures r.Pass? ==> isInnerMethodDefinition == old(isInnerMethodDefinition)
      ensures r.Pass? && Ready(old(manager.Snap()), n, goal) ==> manager.current == goal
      ensures r.Pass? && manager.options.IsES6() ==>
        |old(manager.scopes)| <= k && OpenedAt(manager.Snap(), k, n.nid, SwitchScope)
      decreases n, 1
    {
      ghost var st0 := manager.Snap();
      k := |st0.scopes|;
      GrowsRefl(st0);
      if manager.options.IsES6() {
        NormalTypeOf(n);
        r := Nest(n, false, Normal, goal);
        if r.Fail? {
          return;
        }
      }
      ghost var m2 := manager.Snap();
      r := VisitCases(n, goal);
      GrowsTrans(st0, m2, manager.Snap());
      if r.Pass? && manager.options.IsES6() {
        OpenedAtKept(m2, manager.Snap(), k, n.nid, SwitchScope);
      }
    }

    /** The cases of `SwitchStatement`, in order, then `close(node)`. */
    method VisitCases(n: Node, ghost goal: Option<ScopeId>) returns (r: Outcome<Error>)
      requires manager.Inv() && n.SwitchStatement?
      modifies this, manager
      ensures manager.Inv() && Grows(old(manager.Snap()), manager.Snap())
      ensures r.Pass? ==> isInnerMethodDefinition == old(isInnerMethodDefinition)
      ensures r.Pass? && Ready(old(manager.Snap()), n, goal) ==> manager.current == goal
      decreases n, 0
    {
      ghost var st0 := manager.Snap();
      GrowsRefl(st0);
      var i := 0;
      while i < |n.cases|
        invariant 0 <= i <= |n.cases|
        invariant manager.Inv() && Grows(st0, manager.Snap())
        invariant isInnerMethodDefinition == old(isInnerMethodDefinition)
        invariant Ready(st0, n, goal) ==> Ready(manager.Snap(), n, goal)
      {
        assert n.cases[i] in n.cases;
        SwitchChildren(n);
        ghost var m := manager.Snap();
        r := VisitChild(n, n.cases[i], goal);
        GrowsTrans(st0, m, manager.Snap());
        if r.Fail? {
          return;
        }
        i := i + 1;
      }
      ghost var m := manager.Snap();
      Close(n, goal);
      GrowsTrans(st0, m, manager.Snap());
      r := Pass;
    }

    /** `CatchClause`: the catch scope, the parameter's names defined on it, the body; close. */
    method OnCatchClause(n: Node) returns (r: Outcome<Error>)
      requires manager.Inv() && n.CatchClause?
      modifies this, manager
      ensures manager.Inv() && Grows(old(manager.Snap()), manager.Snap())
      ensures r.Pass? ==> isInnerMethodDefinition == old(isInnerMethodDefinition)
      ensures r.Pass? && Entering(old(manager.scopes), old(manager.current), n) ==>
        manager.current == Pop(old(manager.scopes), old(manager.current), n.nid)
      ensures var hits := VisitPattern(Some(n.param));
        NestScope(old(manager.Snap()), n, false, Normal, manager.options.directive).Success? && hits.Failure? ==>
          r == Fail(hits.error)
      ensures r.Pass? ==> CatchBound(manager.Snap(), |old(manager.scopes)|, n)
      decreases n, 2
    {
      ghost var st0 := manager.Snap();
      ghost var goal := Pop(st0.scopes, st0.current, n.nid);
      CatchChildren(n);
      CatchStepBinds(st0, n, manager.options.directive);
      CatchStepIs(st0, n, manager.options.directive);
      r := OpenCatchScope(n, goal);
      if r.Fail? {
        return;
      }
      ghost var m2 := manager.Snap();
      r := FinishChild(n, n.body, goal);
      GrowsTrans(st0, m2, manager.Snap());
      if r.Pass? {
        CatchBoundKept(m2, manager.Snap(), |st0.scopes|, n);
      }
    }

    /**
     * `visitFunction`: a FunctionDeclaration's name on the enclosing scope;
     * the function scope (under the name scope of a named FunctionExpression);
     * each parameter's names defined on it; the body (a block body without a
     * block scope of its own); close.
     */
    method VisitFunction(n: Node) returns (r: Outcome<Error>)
      requires manager.Inv() && (n.FunctionDeclaration? || n.FunctionExpression? || n.ArrowFunctionExpression?)
      modifies this, manager
      ensures manager.Inv() && Grows(old(manager.Snap()), manager.Snap())
      ensures r.Pass? ==> isInnerMethodDefinition == old(isInnerMethodDefinition)
      ensures r.Pass? && Entering(old(manager.scopes), old(manager.current), n) ==>
        manager.current == Pop(old(manager.scopes), old(manager.current), n.nid)
      ensures r.Pass? && n.FunctionDeclaration? && IsIdent(OptHandle(n.id)) ==>
        old(manager.current).Some? && HasDef(manager.Snap(), old(manager.current).value, OptHandle(n.id).value.name, FunctionDef(n))
      ensures r.Pass? ==> exists k :: |old(manager.scopes)| <= k && FunctionBound(manager.Snap(), k, n)
      decreases n, 2
    {
      ghost var st0 := manager.Snap();
      ghost var goal := Pop(st0.scopes, st0.current, n.nid);
      GrowsRefl(st0);
      if n.FunctionDeclaration? {
        if manager.current.None? {
          return Fail(NoCurrentScope);
        }
        DefineHere(OptHandle(n.id), FunctionDef(n), n, goal);
      }
      ghost var m := manager.Snap();
      ghost var k;
      r, k := NestedFunction(n, goal);
      GrowsTrans(st0, m, manager.Snap());
      if r.Pass? {
        assert |st0.scopes| <= k && FunctionBound(manager.Snap(), k, n);
      }
      if r.Pass? && n.FunctionDeclaration? && IsIdent(OptHandle(n.id)) {
        HasDefKept(m, manager.Snap(), st0.current.value, OptHandle(n.id).value.name, FunctionDef(n));
      }
    }

    /** The function scope of `visitFunction` and what happens inside it; `k` is that scope. */
    method NestedFunction(n: Node, ghost goal: Option<ScopeId>) returns (r: Outcome<Error>, ghost k: nat)
      requires manager.Inv() && (n.FunctionDeclaration? || n.FunctionExpression? || n.ArrowFunctionExpression?)
      modifies this, manager
      ensures manager.Inv() && Grows(old(manager.Snap()), manager.Snap())
      ensures r.Pass? ==> isInnerMethodDefinition == old(isInnerMethodDefinition)
      ensures r.Pass? && Ready(old(manager.Snap()), n, goal) ==> manager.current == goal
      ensures r.Pass? ==> |old(manager.scopes)| <= k && FunctionBound(manager.Snap(), k, n)
      decreases n, 1
    {
      ghost var st0 := manager.Snap();
      k := 0;
      r := Nest(n, isInnerMethodDefinition, Normal, goal);
      if r.Fail? {
        return;
      }
      ghost var m2 := manager.Snap();
      k := manager.current.value;
      NormalTypeOf(n);
      r := ParametersAndBody(n, goal);
      GrowsTrans(st0, m2, manager.Snap());
    }

    /** The rest of `visitFunction` once the function scope is current: the parameters, the body, and close. */
    method ParametersAndBody(n: Node, ghost goal: Option<ScopeId>) returns (r: Outcome<Error>)
      requires manager.Inv() && manager.current.Some?
      requires n.FunctionDeclaration? || n.FunctionExpression? || n.ArrowFunctionExpression?
      requires OpenedAt(manager.Snap(), manager.current.value, n.nid, FunctionScope)
      modifies this, manager
      ensures manager.Inv() && Grows(old(manager.Snap()), manager.Snap())
      ensures r.Pass? ==> isInnerMethodDefinition == old(isInnerMethodDefinition)
      ensures r.Pass? && Ready(old(manager.Snap()), n, goal) ==> manager.current == goal
      ensures r.Pass? ==> FunctionBound(manager.Snap(), old(manager.current).value, n)
      decreases n, 0
    {
      ghost var st0 := manager.Snap();
      ghost var k := manager.current.value;
      GrowsRefl(st0);
      r := DefineParameters(n, goal);
      if r.Fail? {
        return;
      }
      ghost var m := manager.Snap();
      ParamsStepBinds(st0, k, n);
      r := FinishFunction(n, goal);
      GrowsTrans(st0, m, manager.Snap());
      if r.Pass? {
        FunctionBoundKept(m, manager.Snap(), k, n);
      }
    }

    /** The parameters of `visitFunction`: parameter `i`'s names are defined on the function scope. */
    method DefineParameters(n: Node, ghost goal: Option<ScopeId>) returns (r: Outcome<Error>)
      requires manager.Inv() && manager.current.Some?
      requires n.FunctionDeclaration? || n.FunctionExpression? || n.ArrowFunctionExpression?
      modifies manager
      ensures InRange(old(manager.Snap()), old(manager.current))
      ensures var e := DefineParams(old(manager.Snap()), old(manager.current), HandleOf(n), Walks(n.params), 0);
        && (e.Success? ==> r.Pass? && manager.Snap() == e.value)
        && (e.Failure? ==> r == Fail(e.error))
      ensures manager.Inv() && Grows(old(manager.Snap()), manager.Snap())
      ensures r.Pass? && Ready(old(manager.Snap()), n, goal) ==> Ready(manager.Snap(), n, goal)
    {
      ghost var st0 := manager.Snap();
      ghost var ws := Walks(n.params);
      ValidCurrent(st0);
      GrowsRefl(st0);
      var i := 0;
      ghost var now := st0;
      while i < |n.params|
        invariant 0 <= i <= |n.params|
        invariant now == manager.Snap() && manager.Inv() && manager.current == st0.current
        invariant Grows(st0, now)
        invariant DefineParams(st0, st0.current, HandleOf(n), ws, 0) == DefineParams(now, st0.current, HandleOf(n), ws, i)
        invariant Ready(st0, n, goal) ==> Ready(now, n, goal)
      {
        r := DefineParameter(n, i, goal);
        GrowsTrans(st0, now, manager.Snap());
        if r.Fail? {
          return;
        }
        now := manager.Snap();
        i := i + 1;
      }
      assert DefineParams(now, st0.current, HandleOf(n), ws, i) == Success(now);
      r := Pass;
    }

    /** One turn of the parameter loop: parameter `i`'s names defined on the current scope. */
    method DefineParameter(n: Node, i: nat, ghost goal: Option<ScopeId>) returns (r: Outcome<Error>)
      requires manager.Inv() && manager.current.Some?
      requires (n.FunctionDeclaration? || n.FunctionExpression? || n.ArrowFunctionExpression?) && i < |n.params|
      modifies manager
      ensures manager.Inv() && Grows(old(manager.Snap()), manager.Snap()) && manager.current == old(manager.current)
      ensures InRange(old(manager.Snap()), old(manager.current)) && InRange(manager.Snap(), manager.current)
      ensures var e := DefineParams(old(manager.Snap()), old(manager.current), HandleOf(n), Walks(n.params), i);
        && (r.Pass? ==> e == DefineParams(manager.Snap(), old(manager.current), HandleOf(n), Walks(n.params), i + 1))
        && (r.Fail? ==> e == Failure(r.error))
      ensures r.Pass? && Ready(old(manager.Snap()), n, goal) ==> Ready(manager.Snap(), n, goal)
    {
      ghost var st0 := manager.Snap();
      ValidCurrent(st0);
      GrowsRefl(st0);
      var hits := VisitPattern(Some(n.params[i]));
      assert Walks(n.params)[i] == hits;
      if hits.Failure? {
        return Fail(hits.error);
      }
      r := DefineTargets(manager.current, TargetsOf(hits.value), ParamTemplate(HandleOf(n), i));
      if r.Pass? && Ready(st0, n, goal) {
        ReadyKept(st0, manager.Snap(), n, goal);
      }
    }

    /** The body of `visitFunction`: a block body's children (no block scope of its own) or the expression; close. */
    method FinishFunction(n: Node, ghost goal: Option<ScopeId>) returns (r: Outcome<Error>)
      requires manager.Inv()
      requires n.FunctionDeclaration? || n.FunctionExpression? || n.ArrowFunctionExpression?
      modifies this, manager
      ensures manager.Inv() && Grows(old(manager.Snap()), manager.Snap())
      ensures r.Pass? ==> isInnerMethodDefinition == old(isInnerMethodDefinition)
      ensures r.Pass? && Ready(old(manager.Snap()), n, goal) ==> manager.current == goal
      decreases n.body, 8
    {
      ghost var st0 := manager.Snap();
      FunctionChildren(n);
      if !n.body.BlockStatement? {
        r := FinishChild(n, n.body, goal);
        return;
      }
      ghost var ready := Ready(st0, n, goal);
      if ready {
        ReadyChild(st0, n, goal, n.body);
      }
      r := VisitChildren(n.body);
      if r.Fail? {
        return;
      }
      ghost var m := manager.Snap();
      if ready {
        ReadyKept(st0, m, n, goal);
      }
      Close(n, goal);
      GrowsTrans(st0, m, manager.Snap());
    }

    /**
     * `visitClass`: a ClassDeclaration's name on the enclosing scope; the
     * superclass outside; the class scope, holding the class name again when
     * there is one; the body; close.
     */
    method VisitClass(n: Node) returns (r: Outcome<Error>)
      requires manager.Inv() && (n.ClassDeclaration? || n.ClassExpression?)
      modifies this, manager
      ensures manager.Inv() && Grows(old(manager.Snap()), manager.Snap())
      ensures r.Pass? ==> isInnerMethodDefinition == old(isInnerMethodDefinition)
      ensures r.Pass? && Entering(old(manager.scopes), old(manager.current), n) ==>
        manager.current == Pop(old(manager.scopes), old(manager.current), n.nid)
      ensures r.Pass? && n.ClassDeclaration? && IsIdent(OptHandle(n.id)) ==>
        old(manager.current).Some? && HasDef(manager.Snap(), old(manager.current).value, OptHandle(n.id).value.name, ClassDef(n))
      ensures r.Pass? ==> exists k :: |old(manager.scopes)| <= k && ClassBound(manager.Snap(), k, n)
      decreases n, 2
    {
      ghost var st0 := manager.Snap();
      ghost var goal := Pop(st0.scopes, st0.current, n.nid);
      GrowsRefl(st0);
      ClassChildren(n);
      r := ClassOutside(n, goal);
      if r.Fail? {
        return;
      }
      ghost var m2 := manager.Snap();
      ghost var k;
      r, k := ClassInside(n, goal);
      GrowsTrans(st0, m2, manager.Snap());
      if r.Pass? {
        assert |st0.scopes| <= k && ClassBound(manager.Snap(), k, n);
        if n.ClassDeclaration? && IsIdent(OptHandle(n.id)) {
          HasDefKept(m2, manager.Snap(), st0.current.value, OptHandle(n.id).value.name, ClassDef(n));
        }
      }
    }

    /** What `visitClass` does from the class scope on: open it, the body, close; `k` is where the scopes stood. */
    method ClassInside(n: Node, ghost goal: Option<ScopeId>) returns (r: Outcome<Error>, ghost k: nat)
      requires manager.Inv() && (n.ClassDeclaration? || n.ClassExpression?)
      modifies this, manager
      ensures manager.Inv() && Grows(old(manager.Snap()), manager.Snap())
      ensures r.Pass? ==> isInnerMethodDefinition == old(isInnerMethodDefinition)
      ensures r.Pass? && Ready(old(manager.Snap()), n, goal) ==> manager.current == goal
      ensures r.Pass? ==> |old(manager.scopes)| <= k && ClassBound(manager.Snap(), k, n)
      decreases n, 1
    {
      ghost var st0 := manager.Snap();
      k := |st0.scopes|;
      ClassChildren(n);
      r := OpenClassScope(n, goal);
      if r.Fail? {
        return;
      }
      ghost var m4 := manager.Snap();
      ClassScopeStepBinds(st0, n, manager.options.directive);
      r := FinishChild(n, n.body, goal);
      GrowsTrans(st0, m4, manager.Snap());
      if r.Pass? {
        ClassBoundKept(m4, manager.Snap(), k, n);
      }
    }

    /** What `visitClass` does in the enclosing scope: the declaration's name, then the superclass. */
    method ClassOutside(n: Node, ghost goal: Option<ScopeId>) returns (r: Outcome<Error>)
      requires manager.Inv() && (n.ClassDeclaration? || n.ClassExpression?)
      modifies this, manager
      ensures manager.Inv() && Grows(old(manager.Snap()), manager.Snap())
      ensures r.Pass? ==> isInnerMethodDefinition == old(isInnerMethodDefinition)
      ensures r.Pass? && Ready(old(manager.Snap()), n, goal) ==>
        Ready(manager.Snap(), n, goal) && manager.current == old(manager.current)
      ensures r.Pass? && n.ClassDeclaration? && IsIdent(OptHandle(n.id)) ==>
        old(manager.current).Some? && HasDef(manager.Snap(), old(manager.current).value, OptHandle(n.id).value.name, ClassDef(n))
      decreases n, 1
    {
      ghost var st0 := manager.Snap();
      GrowsRefl(st0);
      ClassChildren(n);
      if n.ClassDeclaration? {
        if manager.current.None? {
          return Fail(NoCurrentScope);
        }
        DefineHere(OptHandle(n.id), ClassDef(n), n, goal);
      }
      ghost var m := manager.Snap();
      if n.superClass.Some? {
        r := VisitChild(n, n.superClass.value, goal);
        GrowsTrans(st0, m, manager.Snap());
      } else {
        r := Pass;
      }
      if r.Pass? && n.ClassDeclaration? && IsIdent(OptHandle(n.id)) {
        HasDefKept(m, manager.Snap(), st0.current.value, OptHandle(n.id).value.name, ClassDef(n));
      }
    }

    /** The class scope of `visitClass`, holding the class name when there is one. */
    method OpenClassScope(n: Node, ghost goal: Option<ScopeId>) returns (r: Outcome<Error>)
      requires manager.Inv() && (n.ClassDeclaration? || n.ClassExpression?)
      modifies manager
      ensures var e := ClassScopeStep(old(manager.Snap()), n, manager.options.directive);
        && (e.Success? ==> r.Pass? && manager.Snap() == e.value)
        && (e.Failure? ==> r == Fail(e.error) && manager.Snap() == old(manager.Snap()))
      ensures manager.Inv() && Grows(old(manager.Snap()), manager.Snap())
      ensures r.Pass? && Ready(old(manager.Snap()), n, goal) ==> Ready(manager.Snap(), n, goal)
    {
      ghost var st0 := manager.Snap();
      ClassScopeStepIs(st0, n, manager.options.directive);
      r := Nest(n, false, Normal, goal);
      if r.Fail? || n.id.None? {
        return;
      }
      ghost var m := manager.Snap();
      ValidCurrent(m);
      DefineHere(OptHandle(n.id), ClassDef(n), n, goal);
      GrowsTrans(st0, m, manager.Snap());
    }

    /** The catch scope of `CatchClause`, holding the names of the parameter. */
    method OpenCatchScope(n: Node, ghost goal: Option<ScopeId>) returns (r: Outcome<Error>)
      requires manager.Inv() && n.CatchClause?
      modifies manager
      ensures var e := CatchStep(old(manager.Snap()), n, manager.options.directive);
        && (e.Success? ==> r.Pass? && manager.Snap() == e.value)
        && (e.Failure? ==> r == Fail(e.error))
      ensures manager.Inv() && Grows(old(manager.Snap()), manager.Snap())
      ensures r.Pass? && Ready(old(manager.Snap()), n, goal) ==> Ready(manager.Snap(), n, goal)
    {
      ghost var st0 := manager.Snap();
      CatchStepIs(st0, n, manager.options.directive);
      r := Nest(n, false, Normal, goal);
      if r.Fail? {
        return;
      }
      ghost var m := manager.Snap();
      var hits := VisitPattern(Some(n.param));
      if hits.Failure? {
        return Fail(hits.error);
      }
      ValidCurrent(m);
      r := DefineTargets(manager.current, TargetsOf(hits.value), CatchTemplate(n));
      GrowsTrans(st0, m, manager.Snap());
      if r.Pass? && Ready(st0, n, goal) {
        ReadyKept(m, manager.Snap(), n, goal);
      }
    }

    /**
     * `visitForIn` for ForInStatement and ForOfStatement.  A `let`/`const`
     * head gets a TDZ scope (around `right`) and an iteration scope (around
     * the body); otherwise the head is written from the current scope.
     */
    method VisitForIn(n: Node) returns (r: Outcome<Error>)
      requires manager.Inv() && (n.ForInStatement? || n.ForOfStatement?)
      modifies this, manager
      ensures manager.Inv() && Grows(old(manager.Snap()), manager.Snap())
      ensures r.Pass? ==> isInnerMethodDefinition == old(isInnerMethodDefinition)
      ensures r.Pass? && Entering(old(manager.scopes), old(manager.current), n) ==>
        manager.current == old(manager.current) || manager.current == Pop(old(manager.scopes), old(manager.current), n.nid)
      ensures r.Pass? && n.left.VariableDeclaration? && n.left.kind != Var ==>
        LexicalForInBound(manager.Snap(), |old(manager.scopes)|, |old(manager.refs)|, n)
      ensures !(n.left.VariableDeclaration? && n.left.kind != Var) && ForInHead(n).Failure? ==> r.Fail?
      ensures r.Pass? && !(n.left.VariableDeclaration? && n.left.kind != Var) &&
              Entering(old(manager.scopes), old(manager.current), n) && old(manager.current).Some? ==>
        var c := old(manager.current).value;
        HeadWritten(manager.Snap(), |old(manager.refs)|, c, StrictAt(old(manager.Snap()), c), n)
      decreases n, 2
    {
      ghost var st0 := manager.Snap();
      ghost var goal := Pop(st0.scopes, st0.current, n.nid);
      GrowsRefl(st0);
      ForInChildren(n);
      if n.left.VariableDeclaration? && n.left.kind != Var {
        r := VisitLexicalForIn(n, goal);
        return;
      }
      r := WriteForInHead(n, goal);
      if r.Fail? {
        return;
      }
      ghost var m3 := manager.Snap();
      r := VisitChild(n, n.right, goal);
      GrowsTrans(st0, m3, manager.Snap());
      if r.Fail? {
        return;
      }
      ghost var m4 := manager.Snap();
      r := VisitChild(n, n.body, goal);
      GrowsTrans(st0, m4, manager.Snap());
      if r.Pass? && Ready(st0, n, goal) && st0.current.Some? {
        GrowsTrans(m3, m4, manager.Snap());
        HeadWrittenKept(m3, manager.Snap(), |st0.refs|, st0.current.value, StrictAt(st0, st0.current.value), n);
      }
    }

    /** The `let`/`const` case of `visitForIn`: the TDZ scope for `right`, the iteration scope for the body; close. */
    method VisitLexicalForIn(n: Node, ghost goal: Option<ScopeId>) returns (r: Outcome<Error>)
      requires manager.Inv() && (n.ForInStatement? || n.ForOfStatement?)
      modifies this, manager
      ensures manager.Inv() && Grows(old(manager.Snap()), manager.Snap())
      ensures r.Pass? ==> isInnerMethodDefinition == old(isInnerMethodDefinition)
      ensures r.Pass? && Ready(old(manager.Snap()), n, goal) ==> manager.current == goal
      ensures r.Pass? ==> LexicalForInBound(manager.Snap(), |old(manager.scopes)|, |old(manager.refs)|, n)
      decreases n, 1
    {
      ghost var st0 := manager.Snap();
      ForInChildren(n);
      ghost var t;
      r, t := VisitInTDZScope(n, goal);
      if r.Fail? {
        return;
      }
      ghost var m := manager.Snap();
      r := MaterializeIterationScope(n, goal);
      GrowsTrans(st0, m, manager.Snap());
      if r.Fail? {
        return;
      }
      ghost var m2 := manager.Snap();
      r := FinishChild(n, n.body, goal);
      GrowsTrans(st0, m2, manager.Snap());
      if r.Pass? {
        LexicalForInSteps(st0, m, m2, manager.Snap(), n, t, manager.options.directive);
      }
    }

    /**
     * The head of a `var` or pattern `visitForIn`: a declaration is visited
     * and its first declarator's names written with `right`; a pattern is
     * written with `right` (and the loop as its implicit-global site in
     * sloppy code), after being visited when it is not a pattern.
     */
    method WriteForInHead(n: Node, ghost goal: Option<ScopeId>) returns (r: Outcome<Error>)
      requires manager.Inv() && (n.ForInStatement? || n.ForOfStatement?)
      modifies this, manager
      ensures manager.Inv() && Grows(old(manager.Snap()), manager.Snap())
      ensures r.Pass? ==> isInnerMethodDefinition == old(isInnerMethodDefinition)
      ensures r.Pass? && Ready(old(manager.Snap()), n, goal) ==>
        Ready(manager.Snap(), n, goal) && manager.current == old(manager.current)
      ensures ForInHead(n).Failure? ==> r.Fail?
      ensures r.Pass? && Ready(old(manager.Snap()), n, goal) && old(manager.current).Some? ==>
        var c := old(manager.current).value;
        HeadWritten(manager.Snap(), |old(manager.refs)|, c, StrictAt(old(manager.Snap()), c), n)
      decreases n, 1
    {
      ghost var st0 := manager.Snap();
      GrowsRefl(st0);
      ValidCurrent(st0);
      ForInChildren(n);
      if n.left.VariableDeclaration? || !IsPattern(n.left) {
        r := VisitChild(n, n.left, goal);
        if r.Fail? {
          return;
        }
      }
      ghost var m := manager.Snap();
      r := WriteHead(n);
      GrowsTrans(st0, m, manager.Snap());
      if r.Pass? && Ready(st0, n, goal) {
        ReadyKept(m, manager.Snap(), n, goal);
      }
      if r.Pass? && Ready(st0, n, goal) && st0.current.Some? {
        HeadWrittenSince(st0, m, manager.Snap(), st0.current.value, n);
      }
    }

    /**
     * The writes of a for-in/of head outside a TDZ scope: the names of the
     * first declarator, or the identifiers of the pattern, each a partial
     * write of `right`.
     */
    method WriteHead(n: Node) returns (r: Outcome<Error>)
      requires manager.Inv() && (n.ForInStatement? || n.ForOfStatement?)
      modifies manager
      ensures var e := HeadStep(old(manager.Snap()), n);
        && (e.Success? ==> r.Pass? && manager.Snap() == e.value)
        && (e.Failure? ==> r == Fail(e.error) && manager.Snap() == old(manager.Snap()))
      ensures manager.Inv() && Grows(old(manager.Snap()), manager.Snap()) && manager.current == old(manager.current)
      ensures ForInHead(n).Failure? ==> r.Fail?
      ensures r.Pass? && old(manager.current).Some? ==>
        var c := old(manager.current).value;
        HeadWritten(manager.Snap(), |old(manager.refs)|, c, StrictAt(old(manager.Snap()), c), n)
    {
      GrowsRefl(manager.Snap());
      if manager.current.Some? {
        HeadStepWrites(manager.Snap(), n);
      }
      var targets, w;
      if n.left.VariableDeclaration? {
        var d := Declarator(VariableDef, n.left, 0);
        if d.Failure? {
          return Fail(d.error);
        }
        targets, w := d.value.targets, WriteRule(Some(HandleOf(n.right)), None, true);
      } else {
        var hits := VisitPattern(Some(n.left));
        if hits.Failure? {
          return Fail(hits.error);
        }
        targets, w := TargetsOf(hits.value), WriteRule(Some(HandleOf(n.right)), Some(HandleOf(n)), true);
      }
      r := WriteTargets(targets, w);
    }

    /**
     * The `right` of a `let`/`const` `visitForIn`: `materializeTDZScope`,
     * the visit of `right`, and `close(right)`; the current scope is back
     * where it was afterwards.
     */
    method VisitInTDZScope(n: Node, ghost goal: Option<ScopeId>) returns (r: Outcome<Error>, ghost k: nat)
      requires manager.Inv() && (n.ForInStatement? || n.ForOfStatement?)
      modifies this, manager
      ensures manager.Inv() && Grows(old(manager.Snap()), manager.Snap())
      ensures r.Pass? ==> isInnerMethodDefinition == old(isInnerMethodDefinition)
      ensures r.Pass? && Ready(old(manager.Snap()), n, goal) ==> Ready(manager.Snap(), n, goal)
      ensures r.Pass? ==> |old(manager.scopes)| <= k && TdzBound(manager.Snap(), k, n)
      decreases n, 0
    {
      ghost var st0 := manager.Snap();
      k := 0;
      r := MaterializeTDZScope(n);
      if r.Fail? {
        return;
      }
      ghost var st2 := manager.Snap();
      TdzStepBinds(st0, n, manager.options.directive);
      k := st2.current.value;
      ForInChildren(n);
      r := VisitThenClose(st0, n, goal, n.right);
      GrowsTrans(st0, st2, manager.Snap());
      if r.Pass? && Ready(st0, n, goal) {
        ReadyKept(st0, manager.Snap(), n, goal);
      }
      if r.Pass? {
        TdzBoundKept(st2, manager.Snap(), k, n);
      }
    }

    /**
     * The visit of `right` in the TDZ scope just pushed on top of `a`, then
     * `close(right)`: on a fresh subtree the scope current in `a` is current again.
     */
    method VisitThenClose(ghost a: State, ghost n: Node, ghost goal: Option<ScopeId>, c: Node) returns (r: Outcome<Error>)
      requires manager.Inv() && Valid(a) && Grows(a, manager.Snap()) && Pushed(a, manager.Snap(), c.nid)
      requires c in Children(n)
      modifies this, manager
      ensures manager.Inv() && Grows(old(manager.Snap()), manager.Snap())
      ensures r.Pass? ==> isInnerMethodDefinition == old(isInnerMethodDefinition)
      ensures r.Pass? && Ready(a, n, goal) ==> manager.current == a.current
      decreases c, 6
    {
      ghost var st2 := manager.Snap();
      if Ready(a, n, goal) {
        TdzFresh(a, st2, n, goal, c);
      }
      r := Visit(c);
      if r.Fail? {
        return;
      }
      ghost var st3 := manager.Snap();
      CloseTDZScope(a, st2, n, goal, c);
      GrowsTrans(st2, st3, manager.Snap());
    }

    /** `close(right)` after the visit of `right`, which began in state `b`, the TDZ scope pushed on top of `a`. */
    method CloseTDZScope(ghost a: State, ghost b: State, ghost n: Node, ghost goal: Option<ScopeId>, c: Node)
      requires manager.Inv() && Valid(a) && Valid(b) && Grows(a, b) && Grows(b, manager.Snap())
      requires Pushed(a, b, c.nid) && c in Children(n)
      requires Ready(a, n, goal) ==> manager.current == b.current || manager.current == Pop(b.scopes, b.current, c.nid)
      modifies manager
      ensures manager.Inv() && Grows(old(manager.Snap()), manager.Snap())
      ensures Ready(a, n, goal) ==> manager.current == a.current
    {
      ghost var st3 := manager.Snap();
      Close(c, None);
      if Ready(a, n, goal) {
        TdzReturns(a, b, st3, n, goal, c, manager.options.optimistic);
      }
    }

    /**
     * `materializeTDZScope(right, node)`: the TDZ scope of `right`, holding
     * the names of the head's first declarator as TDZ definitions.
     */
    method MaterializeTDZScope(n: Node) returns (r: Outcome<Error>)
      requires manager.Inv() && (n.ForInStatement? || n.ForOfStatement?)
      modifies manager
      ensures var e := TdzStep(old(manager.Snap()), n, manager.options.directive);
        && (e.Success? ==> r.Pass? && manager.Snap() == e.value)
        && (e.Failure? ==> r == Fail(e.error))
      ensures manager.Inv() && Grows(old(manager.Snap()), manager.Snap())
      ensures r.Pass? ==> Pushed(old(manager.Snap()), manager.Snap(), n.right.nid)
    {
      ghost var st0 := manager.Snap();
      TdzStepIs(st0, n, manager.options.directive);
      r := Nest(n.right, false, TDZ, None);
      if r.Fail? {
        return;
      }
      ghost var st1 := manager.Snap();
      ValidCurrent(st1);
      r := VisitVariableDeclaration(manager.current, TDZDef, n.left, 0);
      GrowsTrans(st0, st1, manager.Snap());
      if r.Pass? {
        PushedKept(st0, st1, manager.Snap(), n.right.nid);
      }
    }

    /**
     * `materializeIterationScope(node)`: the iteration scope, the head's
     * names defined on it, and each of them written with `right`.
     */
    method MaterializeIterationScope(n: Node, ghost goal: Option<ScopeId>) returns (r: Outcome<Error>)
      requires manager.Inv() && (n.ForInStatement? || n.ForOfStatement?)
      modifies manager
      ensures var e := IterationStep(old(manager.Snap()), n, manager.options.directive);
        && (e.Success? ==> r.Pass? && manager.Snap() == e.value)
        && (e.Failure? ==> r == Fail(e.error))
      ensures manager.Inv() && Grows(old(manager.Snap()), manager.Snap())
      ensures r.Pass? && Ready(old(manager.Snap()), n, goal) ==> Ready(manager.Snap(), n, goal)
    {
      ghost var st0 := manager.Snap();
      IterationStepIs(st0, n, manager.options.directive);
      r := Nest(n, false, Normal, goal);
      if r.Fail? {
        return;
      }
      ghost var st1 := manager.Snap();
      ValidCurrent(st1);
      r := VisitVariableDeclaration(manager.current, VariableDef, n.left, 0);
      GrowsTrans(st0, st1, manager.Snap());
      if r.Fail? {
        return;
      }
      var d := Declarator(VariableDef, n.left, 0);
      ghost var st2 := manager.Snap();
      r := WriteTargets(d.value.targets, WriteRule(Some(HandleOf(n.right)), None, true));
      GrowsTrans(st0, st2, manager.Snap());
      GrowsTrans(st1, st2, manager.Snap());
      if r.Pass? && Ready(st0, n, goal) {
        ReadyKept(st1, manager.Snap(), n, goal);
      }
    }
  }

  /** The node types whose handler may open scopes for the node itself. */
  predicate OpensScope(n: Node)
  {
    || n.Program? || n.ForStatement? || n.ClassExpression? || n.ClassDeclaration? || n.BlockStatement?
    || n.WithStatement? || n.SwitchStatement? || n.FunctionDeclaration? || n.FunctionExpression?
    || n.ArrowFunctionExpression? || n.ForInStatement? || n.ForOfStatement? || n.CatchClause?
  }

  predicate ReadsOrSkips(n: Node)
  {
    || n.Identifier? || n.UpdateExpression? || n.MemberExpression? || n.Property? || n.MethodDefinition?
    || n.BreakStatement? || n.ContinueStatement? || n.ThisExpression?
  }

  predicate BindsOrDetects(n: Node)
  {
    || n.CallExpression? || n.VariableDeclaration? || n.AssignmentExpression? || n.ImportDeclaration?
    || n.ExportDeclaration? || n.ExportSpecifier?
  }

  /** A call `eval(…)` through the plain identifier, when direct eval is not ignored. */
  predicate IsDirectEval(n: Node, options: Options)
    requires n.CallExpression?
  {
    !options.ignoreEval && n.callee.Identifier? && n.callee.name == "eval"
  }
}
