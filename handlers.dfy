/**
 * The parts of the Referencer's handlers (lib/referencer.js) that visit no
 * subtree, as functions of the analysis state: the parameter loop of
 * `visitFunction`, the class scope of `visitClass`, the catch scope of
 * `CatchClause`, an assignment to a pattern, the head of a for-in/of loop,
 * `materializeTDZScope`, `materializeIterationScope` and `ImportDeclaration`.
 *
 * Each comes with the facts it establishes that survive the rest of the
 * analysis, because every later step only lets the state grow: a scope opened
 * on a given node with a given type, the names bound in it with their
 * definitions, and the writes recorded from it.
 */
module Handlers {
  import opened Base
  import opened Ast
  import opened Scopes
  import opened Nesting
  import opened Patterns
  import opened Bindings
  import opened Steps
  import opened Imports

  // ---------------------------------------------------------------------
  // Facts that survive growth

  /** Every Identifier target is bound in scope `s` to a Variable holding its definition. */
  ghost predicate DefinesAll(st: State, s: ScopeId, ts: seq<Target>, tpl: DefTemplate)
  {
    forall t :: t in ts && t.id.Ident? ==> HasDef(st, s, t.id.name, DefFor(tpl, t.id))
  }

  lemma DefinesAllKept(a: State, b: State, s: ScopeId, ts: seq<Target>, tpl: DefTemplate)
    requires DefinesAll(a, s, ts, tpl) && Grows(a, b)
    ensures DefinesAll(b, s, ts, tpl)
  {
    forall t | t in ts && t.id.Ident? ensures HasDef(b, s, t.id.name, DefFor(tpl, t.id)) {
      HasDefKept(a, b, s, t.id.name, DefFor(tpl, t.id));
    }
  }

  /** Every Identifier target has a write, at index `lo` or later, from scope `c` under rule `w`. */
  ghost predicate WritesAll(st: State, lo: nat, ts: seq<Target>, c: ScopeId, w: WriteRule, strict: bool)
  {
    forall t :: t in ts && t.id.Ident? ==> Wrote(st, lo, t, c, w, strict)
  }

  lemma WritesAllKept(a: State, b: State, lo: nat, ts: seq<Target>, c: ScopeId, w: WriteRule, strict: bool)
    requires WritesAll(a, lo, ts, c, w, strict) && Grows(a, b)
    ensures WritesAll(b, lo, ts, c, w, strict)
  {
    forall t | t in ts && t.id.Ident? ensures Wrote(b, lo, t, c, w, strict) {
      WroteKept(a, b, lo, t, c, w, strict);
    }
  }

  /** A write found from index `hi` on is found from any earlier index. */
  lemma WritesAllLower(st: State, lo: nat, hi: nat, ts: seq<Target>, c: ScopeId, w: WriteRule, strict: bool)
    requires WritesAll(st, hi, ts, c, w, strict) && lo <= hi
    ensures WritesAll(st, lo, ts, c, w, strict)
  {
    forall t | t in ts && t.id.Ident? ensures Wrote(st, lo, t, c, w, strict) {
      var x :| hi <= x < |st.refs| && WriteOf(st.refs[x], t, c, w, strict);
    }
  }

  /** Scope `k` was opened on node `nid` with type `t`. */
  ghost predicate OpenedAt(st: State, k: nat, nid: NodeId, t: ScopeType)
  {
    k < |st.scopes| && st.scopes[k].block.nid == nid && st.scopes[k].scopeType == t
  }

  lemma OpenedAtKept(a: State, b: State, k: nat, nid: NodeId, t: ScopeType)
    requires OpenedAt(a, k, nid, t) && Grows(a, b)
    ensures OpenedAt(b, k, nid, t)
  {
    assert ScopeGrows(a.scopes[k], b.scopes[k]);
  }

  /** Scope `s` is strict; no step changes that. */
  ghost predicate StrictAt(st: State, s: ScopeId)
  {
    s < |st.scopes| && st.scopes[s].isStrict
  }

  lemma StrictKept(a: State, b: State, s: ScopeId)
    requires s < |a.scopes| && Grows(a, b)
    ensures StrictAt(b, s) == StrictAt(a, s)
  {
    assert ScopeGrows(a.scopes[s], b.scopes[s]);
  }

  /** `Construct` makes its last scope, opened for `o`, current; without a name scope it is the one new scope. */
  lemma ConstructOpensAt(st: State, o: Opening, name: Option<Opening>)
    requires Valid(st) && (name.Some? ==> OwnsVariables(name.value.scopeType))
    requires Construct(st, o, name).Success?
    ensures var r := Construct(st, o, name).value;
      && r.current.Some? && |st.scopes| <= r.current.value && r.current.value == |r.scopes| - 1
      && OpenedAt(r, r.current.value, o.block.nid, o.scopeType)
      && (name.None? ==> r.current == Some(|st.scopes|) && |r.scopes| == |st.scopes| + 1)
  {
    ConstructOpens(st, o, name);
  }

  /**
   * `__nestScope` opens the scope for `block` with the type its kind selects
   * and makes it current, after any name scope; without a name scope it is
   * the one new scope, at the end of the arena.
   */
  lemma NestScopeOpens(st: State, block: Node, isMethodDefinition: bool, special: SpecialScope, useDirective: bool)
    requires Valid(st) && NestScope(st, block, isMethodDefinition, special, useDirective).Success?
    ensures var r := NestScope(st, block, isMethodDefinition, special, useDirective).value;
      && r.current.Some? && |st.scopes| <= r.current.value && r.current.value == |r.scopes| - 1
      && OpenedAt(r, r.current.value, block.nid, TypeOf(special, block))
      && (!NeedsNameScope(block, special) ==> r.current == Some(|st.scopes|) && |r.scopes| == |st.scopes| + 1)
  {
    var o := OpeningOf(block, isMethodDefinition, special, useDirective);
    var name := if NeedsNameScope(block, special) then Some(OpeningOf(block, isMethodDefinition, FunctionExpressionName, useDirective))
                else None;
    assert NestScope(st, block, isMethodDefinition, special, useDirective) == Construct(st, o, name);
    ConstructOpensAt(st, o, name);
  }

  /** The declarations of one declarator on the current scope, which stays current. */
  function DeclareHere(m: State, d: Declared): (r: Result<State, Error>)
    requires Valid(m) && m.current.Some?
    ensures r.Success? ==> Valid(r.value) && Grows(m, r.value) && Local(m, r.value)
  {
    ValidCurrent(m);
    DeclareAll(m, m.current, d.targets, d.tpl, d.init)
  }

  /** Declaring on the current scope never fails, and binds the declarator's names there. */
  lemma DeclareHereBinds(m: State, d: Declared)
    requires Valid(m) && m.current.Some?
    ensures DeclareHere(m, d).Success?
    ensures DefinesAll(DeclareHere(m, d).value, m.current.value, d.targets, d.tpl)
  {
    ValidCurrent(m);
    DeclareAllDefines(m, m.current.value, d.targets, d.tpl, d.init);
  }

  // ---------------------------------------------------------------------
  // VariableDeclaration

  /** Declarator `i` of `n` walks, and its names are bound on `s` (when there is one) with their definitions. */
  ghost predicate DeclaredAt(st: State, s: Option<ScopeId>, n: Node, i: nat)
  {
    var d := Declarator(VariableDef, n, i);
    d.Success? && (s.Some? ==> DefinesAll(st, s.value, d.value.targets, d.value.tpl))
  }

  lemma DeclaredAtKept(a: State, b: State, s: Option<ScopeId>, n: Node, i: nat)
    requires DeclaredAt(a, s, n, i) && Grows(a, b)
    ensures DeclaredAt(b, s, n, i)
  {
    if s.Some? {
      var d := Declarator(VariableDef, n, i).value;
      DefinesAllKept(a, b, s.value, d.targets, d.tpl);
    }
  }

  /** Once declarator `i` has been declared on a scope, its names are bound there. */
  lemma DeclareAllDeclares(st: State, s: Option<ScopeId>, n: Node, i: nat)
    requires Valid(st) && InRange(st, s) && Declarator(VariableDef, n, i).Success?
    requires var d := Declarator(VariableDef, n, i).value; DeclareAll(st, s, d.targets, d.tpl, d.init).Success?
    ensures var d := Declarator(VariableDef, n, i).value; DeclaredAt(DeclareAll(st, s, d.targets, d.tpl, d.init).value, s, n, i)
  {
    var d := Declarator(VariableDef, n, i).value;
    DeclareAllFails(st, s, d.targets, d.tpl, d.init);
    if s.Some? && d.targets != [] {
      DeclareAllDefines(st, s.value, d.targets, d.tpl, d.init);
    }
  }

  // ---------------------------------------------------------------------
  // visitFunction: the name and the parameters

  /** The Definition `visitFunction` gives a FunctionDeclaration's name on the enclosing scope. */
  function FunctionDef(n: Node): Definition
    requires n.FunctionDeclaration?
  {
    Definition(FunctionNameDef, OptHandle(n.id), HandleOf(n), None, None, None)
  }


  /** The Definition `visitFunction` gives the names of parameter `i` of function `f`. */
  function ParamTemplate(f: Handle, i: nat): DefTemplate
  {
    DefTemplate(ParameterDef, None, f, None, Some(i), None)
  }

  predicate IsFunction(n: Node)
  {
    n.FunctionDeclaration? || n.FunctionExpression? || n.ArrowFunctionExpression?
  }

  /** The pattern walk of each parameter, in order. */
  function Walks(ps: seq<Node>): (ws: seq<Result<seq<Hit>, Error>>)
    ensures |ws| == |ps|
  {
    seq(|ps|, i requires 0 <= i < |ps| => VisitPattern(Some(ps[i])))
  }

  /** The loop over the parameters of `f` from index `i` on, whose walks are `ws`: each one's names are defined on `s`. */
  function DefineParams(st: State, s: Option<ScopeId>, f: Handle, ws: seq<Result<seq<Hit>, Error>>, i: nat): (r: Result<State, Error>)
    requires Valid(st) && InRange(st, s) && i <= |ws|
    ensures r.Success? ==> Valid(r.value) && Grows(st, r.value) && Local(st, r.value)
    decreases |ws| - i
  {
    if i == |ws| then Success(st)
    else
      var hits :- ws[i];
      var m :- DefineAll(st, s, TargetsOf(hits), ParamTemplate(f, i));
      var r :- DefineParams(m, s, f, ws, i + 1);
      GrowsTrans(st, m, r);
      Success(r)
  }

  /** Parameter `i` walks, and its names are bound on `s` as parameter `i` of `f`. */
  ghost predicate ParamDefined(st: State, s: ScopeId, f: Handle, ws: seq<Result<seq<Hit>, Error>>, i: nat)
    requires i < |ws|
  {
    ws[i].Success? && DefinesAll(st, s, TargetsOf(ws[i].value), ParamTemplate(f, i))
  }

  /** Every parameter of `f` is bound on `s`. */
  ghost predicate ParamsDefined(st: State, s: ScopeId, f: Handle, ws: seq<Result<seq<Hit>, Error>>)
  {
    forall i :: 0 <= i < |ws| ==> ParamDefined(st, s, f, ws, i)
  }

  lemma ParamsDefinedKept(a: State, b: State, s: ScopeId, f: Handle, ws: seq<Result<seq<Hit>, Error>>)
    requires ParamsDefined(a, s, f, ws) && Grows(a, b)
    ensures ParamsDefined(b, s, f, ws)
  {
    forall i | 0 <= i < |ws| ensures ParamDefined(b, s, f, ws, i) {
      assert ParamDefined(a, s, f, ws, i);
      DefinesAllKept(a, b, s, TargetsOf(ws[i].value), ParamTemplate(f, i));
    }
  }

  /**
   * On a scope, the loop from `i` succeeds exactly when every parameter from
   * `i` on walks, and then each of their names is bound on the scope with
   * the parameter's index.
   */
  lemma {:induction false} DefineParamsDefines(st: State, s: ScopeId, f: Handle, ws: seq<Result<seq<Hit>, Error>>, i: nat)
    requires Valid(st) && s < |st.scopes| && i <= |ws|
    ensures DefineParams(st, Some(s), f, ws, i).Success? <==> forall j :: i <= j < |ws| ==> ws[j].Success?
    ensures DefineParams(st, Some(s), f, ws, i).Success? ==>
      forall j :: i <= j < |ws| ==> ParamDefined(DefineParams(st, Some(s), f, ws, i).value, s, f, ws, j)
    decreases |ws| - i
  {
    if i == |ws| {
    } else if ws[i].Failure? {
      assert DefineParams(st, Some(s), f, ws, i).Failure?;
      assert !ws[i].Success?;
    } else {
      var tpl := ParamTemplate(f, i);
      DefineAllDefines(st, s, TargetsOf(ws[i].value), tpl);
      var m := DefineAll(st, Some(s), TargetsOf(ws[i].value), tpl).value;
      DefineParamsDefines(m, s, f, ws, i + 1);
      var e := DefineParams(m, Some(s), f, ws, i + 1);
      assert DefineParams(st, Some(s), f, ws, i) == e;
      if e.Success? {
        DefinesAllKept(m, e.value, s, TargetsOf(ws[i].value), tpl);
        forall j | i <= j < |ws| ensures ws[j].Success? && ParamDefined(e.value, s, f, ws, j) {
          if j == i {
            assert ParamDefined(e.value, s, f, ws, i);
          }
        }
      } else {
        var j :| i + 1 <= j < |ws| && !ws[j].Success?;
      }
    }
  }

  /** Scope `k` is a function scope on `n`, binding every parameter's names. */
  ghost predicate FunctionBound(st: State, k: nat, n: Node)
    requires IsFunction(n)
  {
    OpenedAt(st, k, n.nid, FunctionScope) && ParamsDefined(st, k, HandleOf(n), Walks(n.params))
  }

  lemma FunctionBoundKept(a: State, b: State, k: nat, n: Node)
    requires IsFunction(n) && FunctionBound(a, k, n) && Grows(a, b)
    ensures FunctionBound(b, k, n)
  {
    OpenedAtKept(a, b, k, n.nid, FunctionScope);
    ParamsDefinedKept(a, b, k, HandleOf(n), Walks(n.params));
  }

  /** Once the parameter loop has run on the function scope `k`, it binds every parameter. */
  lemma ParamsStepBinds(m: State, k: ScopeId, n: Node)
    requires Valid(m) && k < |m.scopes| && IsFunction(n) && OpenedAt(m, k, n.nid, FunctionScope)
    requires DefineParams(m, Some(k), HandleOf(n), Walks(n.params), 0).Success?
    ensures FunctionBound(DefineParams(m, Some(k), HandleOf(n), Walks(n.params), 0).value, k, n)
  {
    var ws := Walks(n.params);
    DefineParamsDefines(m, k, HandleOf(n), ws, 0);
    var r := DefineParams(m, Some(k), HandleOf(n), ws, 0).value;
    OpenedAtKept(m, r, k, n.nid, FunctionScope);
  }

  // ---------------------------------------------------------------------
  // AssignmentExpression on a pattern

  /** The rule of the writes of `left = right`: `right` written, the assignment as implicit-global site, partial below the root. */
  function AssignRule(n: Node): WriteRule
    requires n.AssignmentExpression?
  {
    WriteRule(Some(HandleOf(n.right)), Some(HandleOf(n)), false)
  }

  /** `currentScope().__referencing(left, RW, right)` of a compound assignment. */
  function ReadWriteStep(st: State, left: Handle, right: Handle): (r: Result<State, Error>)
    requires Valid(st)
    ensures r.Success? ==> Valid(r.value) && Grows(st, r.value) && Local(st, r.value)
  {
    if st.current.None? then Failure(NoCurrentScope)
    else
      ValidCurrent(st);
      Success(Referencing(st, st.current.value, Some(left), Some(ReadWrite), Some(right), None, false))
  }

  /**
   * A compound assignment to an Identifier adds exactly one reference: a
   * read-write of the identifier from the current scope that writes `right`,
   * not partial and with no implicit-global record.
   */
  lemma ReadWriteStepRefs(st: State, left: Handle, right: Handle)
    requires Valid(st) && left.Ident?
    ensures ReadWriteStep(st, left, right).Failure? <==> st.current.None?
    ensures st.current.Some? ==>
      var r := ReadWriteStep(st, left, right).value;
      r.refs == st.refs + [Reference(left, st.current.value, false, None, ReadWrite, Some(right), false, None)] && r.vars == st.vars
  {
  }

  /** What the handler does to a pattern `left` before visiting `right`. */
  function AssignStep(st: State, n: Node): (r: Result<State, Error>)
    requires Valid(st) && n.AssignmentExpression?
    ensures r.Success? ==> Valid(r.value) && Grows(st, r.value) && Local(st, r.value)
  {
    if n.operator == "=" then
      var hits :- VisitPattern(Some(n.left));
      WriteAll(st, TargetsOf(hits), AssignRule(n))
    else ReadWriteStep(st, HandleOf(n.left), HandleOf(n.right))
  }

  /**
   * What an assignment to a pattern leaves, from current scope `c` of state
   * `a`: for `=`, a write of every identifier the pattern binds; for a
   * compound operator on an Identifier, the read-write at index `|a.refs|`.
   */
  ghost predicate Assigned(st: State, a: State, c: ScopeId, n: Node)
    requires n.AssignmentExpression?
  {
    if n.operator == "=" then
      var hits := VisitPattern(Some(n.left));
      hits.Success? && WritesAll(st, |a.refs|, TargetsOf(hits.value), c, AssignRule(n), StrictAt(a, c))
    else
      n.left.Identifier? ==>
        var x := |a.refs|;
        && x < |st.refs| && st.refs[x].identifier == HandleOf(n.left) && st.refs[x].from == c
        && st.refs[x].flag == ReadWrite && st.refs[x].writeExpr == Some(HandleOf(n.right))
  }

  lemma AssignedKept(a: State, b: State, st: State, c: ScopeId, n: Node)
    requires n.AssignmentExpression? && Assigned(b, a, c, n) && Grows(b, st)
    ensures Assigned(st, a, c, n)
  {
    if n.operator == "=" {
      var hits := VisitPattern(Some(n.left));
      WritesAllKept(b, st, |a.refs|, TargetsOf(hits.value), c, AssignRule(n), StrictAt(a, c));
    } else if n.left.Identifier? {
      assert RefGrows(b.refs[|a.refs|], st.refs[|a.refs|]);
    }
  }

  /**
   * With a current scope, an assignment to a pattern fails only when `=`
   * meets a pattern that does not walk, and otherwise leaves what
   * `Assigned` says, adding no reference that is not one of its writes.
   */
  lemma AssignStepAssigns(st: State, n: Node)
    requires Valid(st) && st.current.Some? && n.AssignmentExpression?
    ensures AssignStep(st, n).Failure? <==> n.operator == "=" && VisitPattern(Some(n.left)).Failure?
    ensures AssignStep(st, n).Success? ==> Assigned(AssignStep(st, n).value, st, st.current.value, n)
    ensures AssignStep(st, n).Success? && n.operator == "=" ==>
      OnlyWrites(st, AssignStep(st, n).value, TargetsOf(VisitPattern(Some(n.left)).value), st.current.value,
                 AssignRule(n), StrictAt(st, st.current.value))
  {
    ValidCurrent(st);
    if n.operator == "=" {
      var hits := VisitPattern(Some(n.left));
      if hits.Success? {
        WriteAllWrites(st, TargetsOf(hits.value), AssignRule(n));
        WriteAllOnly(st, TargetsOf(hits.value), AssignRule(n));
      }
    } else if n.left.Identifier? {
      ReadWriteStepRefs(st, HandleOf(n.left), HandleOf(n.right));
    }
  }

  // ---------------------------------------------------------------------
  // The head of a `var` or pattern for-in/of loop

  /** The identifiers a loop head writes, and the rule of the writes. */
  datatype HeadWrite = HeadWrite(targets: seq<Target>, rule: WriteRule)

  predicate IsForIn(n: Node)
  {
    n.ForInStatement? || n.ForOfStatement?
  }

  /**
   * A declaration head writes the names of its first declarator; any other
   * head writes the identifiers of its pattern, with the loop as their
   * implicit-global site.  Every write is of `right` and partial.
   */
  function ForInHead(n: Node): Result<HeadWrite, Error>
    requires IsForIn(n)
  {
    if n.left.VariableDeclaration? then
      var d :- Declarator(VariableDef, n.left, 0);
      Success(HeadWrite(d.targets, WriteRule(Some(HandleOf(n.right)), None, true)))
    else
      var hits :- VisitPattern(Some(n.left));
      Success(HeadWrite(TargetsOf(hits), WriteRule(Some(HandleOf(n.right)), Some(HandleOf(n)), true)))
  }

  /** The writes of a loop head, from the current scope. */
  function HeadStep(st: State, n: Node): (r: Result<State, Error>)
    requires Valid(st) && IsForIn(n)
    ensures r.Success? ==> Valid(r.value) && Grows(st, r.value) && Local(st, r.value)
  {
    var h :- ForInHead(n);
    WriteAll(st, h.targets, h.rule)
  }

  /**
   * What a loop head leaves, from current scope `c`: every identifier it
   * binds has a write of `right` from `c`, partial, with the loop recorded
   * for implicit-global promotion exactly when the head is a pattern and `c`
   * is not strict.
   */
  ghost predicate HeadWritten(st: State, lo: nat, c: ScopeId, strict: bool, n: Node)
    requires IsForIn(n)
  {
    var h := ForInHead(n);
    h.Success? && WritesAll(st, lo, h.value.targets, c, h.value.rule, strict)
  }

  lemma HeadWrittenKept(a: State, b: State, lo: nat, c: ScopeId, strict: bool, n: Node)
    requires IsForIn(n) && HeadWritten(a, lo, c, strict, n) && Grows(a, b)
    ensures HeadWritten(b, lo, c, strict, n)
  {
    var h := ForInHead(n).value;
    WritesAllKept(a, b, lo, h.targets, c, h.rule, strict);
  }

  lemma HeadWrittenLower(st: State, lo: nat, hi: nat, c: ScopeId, strict: bool, n: Node)
    requires IsForIn(n) && HeadWritten(st, hi, c, strict, n) && lo <= hi
    ensures HeadWritten(st, lo, c, strict, n)
  {
    var h := ForInHead(n).value;
    WritesAllLower(st, lo, hi, h.targets, c, h.rule, strict);
  }

  /** A head written from `m` on is written from any earlier `st0` on, with the strictness `st0` already had. */
  lemma HeadWrittenSince(st0: State, m: State, f: State, c: ScopeId, n: Node)
    requires IsForIn(n) && c < |st0.scopes| && Grows(st0, m) && HeadWritten(f, |m.refs|, c, StrictAt(m, c), n)
    ensures HeadWritten(f, |st0.refs|, c, StrictAt(st0, c), n)
  {
    StrictKept(st0, m, c);
    HeadWrittenLower(f, |st0.refs|, |m.refs|, c, StrictAt(st0, c), n);
  }

  /**
   * With a current scope, the head's writes fail only when the head does not
   * walk; each write is a partial write of `right`, and it carries the
   * implicit-global record exactly when the head is a pattern in sloppy code.
   */
  lemma HeadStepWrites(st: State, n: Node)
    requires Valid(st) && st.current.Some? && IsForIn(n)
    ensures HeadStep(st, n).Failure? <==> ForInHead(n).Failure?
    ensures HeadStep(st, n).Success? ==>
      HeadWritten(HeadStep(st, n).value, |st.refs|, st.current.value, StrictAt(st, st.current.value), n)
    ensures ForInHead(n).Success? ==>
      var w := ForInHead(n).value.rule;
      w.allPartial && w.writeExpr == Some(HandleOf(n.right)) && (w.implicitNode.Some? <==> !n.left.VariableDeclaration?)
  {
    ValidCurrent(st);
    var h := ForInHead(n);
    if h.Success? {
      WriteAllWrites(st, h.value.targets, h.value.rule);
      WriteAllFails(st, h.value.targets, h.value.rule);
    }
  }

  // ---------------------------------------------------------------------
  // materializeTDZScope and materializeIterationScope

  /** `materializeTDZScope(right, loop)`: the TDZ scope of `right`, then the head's first declarator declared on it. */
  function TdzStep(st: State, n: Node, useDirective: bool): (r: Result<State, Error>)
    requires Valid(st) && IsForIn(n)
    ensures r.Success? ==> Valid(r.value) && Grows(st, r.value)
  {
    var m :- NestScope(st, n.right, false, TDZ, useDirective);
    NestScopeOpens(st, n.right, false, TDZ, useDirective);
    var d :- Declarator(TDZDef, n.left, 0);
    var r :- DeclareHere(m, d);
    GrowsTrans(st, m, r);
    Success(r)
  }

  /** `materializeTDZScope` as its two steps: the scope `m`, then the declarator on it. */
  lemma TdzStepIs(st: State, n: Node, useDirective: bool)
    requires Valid(st) && IsForIn(n)
    ensures var e := NestScope(st, n.right, false, TDZ, useDirective); var d := Declarator(TDZDef, n.left, 0);
      TdzStep(st, n, useDirective) ==
        if e.Failure? then Failure(e.error)
        else if d.Failure? then Failure(d.error)
        else DeclareHere(e.value, d.value)
  {
  }

  /** Scope `k` is a TDZ scope on `right` that binds the names of the head's first declarator as TDZ definitions. */
  ghost predicate TdzBound(st: State, k: nat, n: Node)
    requires IsForIn(n)
  {
    var d := Declarator(TDZDef, n.left, 0);
    OpenedAt(st, k, n.right.nid, TDZScope) && d.Success? && DefinesAll(st, k, d.value.targets, d.value.tpl)
  }

  lemma TdzBoundKept(a: State, b: State, k: nat, n: Node)
    requires IsForIn(n) && TdzBound(a, k, n) && Grows(a, b)
    ensures TdzBound(b, k, n)
  {
    var d := Declarator(TDZDef, n.left, 0).value;
    OpenedAtKept(a, b, k, n.right.nid, TDZScope);
    DefinesAllKept(a, b, k, d.targets, d.tpl);
  }

  /** After `materializeTDZScope`, the TDZ scope is current and binds the head's names as TDZ definitions. */
  lemma TdzStepBinds(st: State, n: Node, useDirective: bool)
    requires Valid(st) && IsForIn(n) && TdzStep(st, n, useDirective).Success?
    ensures var r := TdzStep(st, n, useDirective).value;
      r.current.Some? && |st.scopes| <= r.current.value && TdzBound(r, r.current.value, n)
  {
    var m := NestScope(st, n.right, false, TDZ, useDirective).value;
    NestScopeOpens(st, n.right, false, TDZ, useDirective);
    var d := Declarator(TDZDef, n.left, 0).value;
    DeclareHereBinds(m, d);
    var r := DeclareHere(m, d).value;
    assert TdzStep(st, n, useDirective) == Success(r);
    OpenedAtKept(m, r, m.current.value, n.right.nid, TDZScope);
  }

  /** The write rule of `materializeIterationScope`: `right` written, every write partial. */
  function IterationRule(n: Node): WriteRule
    requires IsForIn(n)
  {
    WriteRule(Some(HandleOf(n.right)), None, true)
  }

  /** The declarations of one declarator on the current scope, then each of its names written under `w`. */
  function DeclareThenWrite(m: State, d: Declared, w: WriteRule): (r: Result<State, Error>)
    requires Valid(m) && m.current.Some?
    ensures r.Success? ==> Valid(r.value) && Grows(m, r.value) && Local(m, r.value)
  {
    var m2 :- DeclareHere(m, d);
    var r :- WriteAll(m2, d.targets, w);
    GrowsTrans(m, m2, r);
    Success(r)
  }

  /** Declaring and writing on the current scope `k` never fails; the names are bound on `k` and written from it. */
  lemma DeclareThenWriteBinds(m: State, d: Declared, w: WriteRule)
    requires Valid(m) && m.current.Some?
    ensures DeclareThenWrite(m, d, w).Success?
    ensures var r := DeclareThenWrite(m, d, w).value; var k := m.current.value;
      && DefinesAll(r, k, d.targets, d.tpl)
      && WritesAll(r, |m.refs|, d.targets, k, w, StrictAt(r, k))
  {
    var k := m.current.value;
    ValidCurrent(m);
    DeclareHereBinds(m, d);
    var m2 := DeclareHere(m, d).value;
    WriteAllWrites(m2, d.targets, w);
    var r := WriteAll(m2, d.targets, w).value;
    DefinesAllKept(m2, r, k, d.targets, d.tpl);
    StrictKept(m2, r, k);
    assert CurrentStrict(m2) == StrictAt(r, k);
    WritesAllLower(r, |m.refs|, |m2.refs|, d.targets, k, w, StrictAt(r, k));
  }

  /**
   * `materializeIterationScope(loop)`: the loop's scope, the head's first
   * declarator declared on it, then each of its names written with `right`.
   */
  function IterationStep(st: State, n: Node, useDirective: bool): (r: Result<State, Error>)
    requires Valid(st) && IsForIn(n)
    ensures r.Success? ==> Valid(r.value) && Grows(st, r.value)
  {
    var m :- NestScope(st, n, false, Normal, useDirective);
    NestScopeOpens(st, n, false, Normal, useDirective);
    var d :- Declarator(VariableDef, n.left, 0);
    var r :- DeclareThenWrite(m, d, IterationRule(n));
    GrowsTrans(st, m, r);
    Success(r)
  }

  /** `materializeIterationScope` as its two steps: the scope `m`, then the declarator declared and written on it. */
  lemma IterationStepIs(st: State, n: Node, useDirective: bool)
    requires Valid(st) && IsForIn(n)
    ensures var e := NestScope(st, n, false, Normal, useDirective); var d := Declarator(VariableDef, n.left, 0);
      IterationStep(st, n, useDirective) ==
        if e.Failure? then Failure(e.error)
        else if d.Failure? then Failure(d.error)
        else DeclareThenWrite(e.value, d.value, IterationRule(n))
  {
  }

  /**
   * Scope `k` is the loop's scope, binding the names of the head's first
   * declarator as variables, each written from `k` with `right`, partially.
   */
  ghost predicate IterationBound(st: State, lo: nat, k: nat, n: Node)
    requires IsForIn(n)
  {
    var d := Declarator(VariableDef, n.left, 0);
    && OpenedAt(st, k, n.nid, ForScope) && d.Success? && DefinesAll(st, k, d.value.targets, d.value.tpl)
    && WritesAll(st, lo, d.value.targets, k, IterationRule(n), StrictAt(st, k))
  }

  lemma IterationBoundKept(a: State, b: State, lo: nat, k: nat, n: Node)
    requires IsForIn(n) && IterationBound(a, lo, k, n) && Grows(a, b)
    ensures IterationBound(b, lo, k, n)
  {
    var d := Declarator(VariableDef, n.left, 0).value;
    OpenedAtKept(a, b, k, n.nid, ForScope);
    DefinesAllKept(a, b, k, d.targets, d.tpl);
    StrictKept(a, b, k);
    WritesAllKept(a, b, lo, d.targets, k, IterationRule(n), StrictAt(a, k));
  }

  lemma IterationBoundLower(st: State, lo: nat, hi: nat, k: nat, n: Node)
    requires IsForIn(n) && IterationBound(st, hi, k, n) && lo <= hi
    ensures IterationBound(st, lo, k, n)
  {
    var d := Declarator(VariableDef, n.left, 0).value;
    WritesAllLower(st, lo, hi, d.targets, k, IterationRule(n), StrictAt(st, k));
  }

  /** After `materializeIterationScope`, the loop's scope is the new current scope and binds and writes the head's names. */
  lemma IterationStepBinds(st: State, n: Node, useDirective: bool)
    requires Valid(st) && IsForIn(n) && IterationStep(st, n, useDirective).Success?
    ensures var r := IterationStep(st, n, useDirective).value;
      r.current == Some(|st.scopes|) && IterationBound(r, |st.refs|, |st.scopes|, n)
  {
    ForInTypeOf(n);
    var m := NestScope(st, n, false, Normal, useDirective).value;
    NestScopeOpens(st, n, false, Normal, useDirective);
    var d := Declarator(VariableDef, n.left, 0).value;
    DeclareThenWriteBinds(m, d, IterationRule(n));
    var r := DeclareThenWrite(m, d, IterationRule(n)).value;
    assert IterationStep(st, n, useDirective) == Success(r);
    OpenedAtKept(m, r, |st.scopes|, n.nid, ForScope);
  }

  /**
   * What a `let`/`const` for-in/of loop leaves, above `lo` scopes and `lx`
   * references: a TDZ scope binding the head's names, and the loop's own
   * scope binding them again and writing each of them with `right`.
   */
  ghost predicate LexicalForInBound(st: State, lo: nat, lx: nat, n: Node)
    requires IsForIn(n)
  {
    && (exists k :: lo <= k && TdzBound(st, k, n))
    && (exists k :: lo <= k && IterationBound(st, lx, k, n))
  }

  /** The TDZ scope `t` opened from `st0` to `m`, then `materializeIterationScope` from `m` to `m2`, then growth to `f`. */
  lemma LexicalForInSteps(st0: State, m: State, m2: State, f: State, n: Node, t: nat, useDirective: bool)
    requires Valid(m) && IsForIn(n) && Grows(st0, m) && |st0.scopes| <= t && TdzBound(m, t, n)
    requires IterationStep(m, n, useDirective).Success? && m2 == IterationStep(m, n, useDirective).value
    requires Grows(m, m2) && Grows(m2, f)
    ensures LexicalForInBound(f, |st0.scopes|, |st0.refs|, n)
  {
    IterationStepBinds(m, n, useDirective);
    GrowsTrans(m, m2, f);
    TdzBoundKept(m, f, t, n);
    IterationBoundKept(m2, f, |m.refs|, |m.scopes|, n);
    IterationBoundLower(f, |st0.refs|, |m.refs|, |m.scopes|, n);
    assert |st0.scopes| <= |m.scopes| && TdzBound(f, t, n);
  }

  // ---------------------------------------------------------------------
  // visitClass: the class scope

  /** The Definition `visitClass` gives the class name, in the enclosing scope and in the class scope. */
  function ClassDef(n: Node): Definition
    requires n.ClassDeclaration? || n.ClassExpression?
  {
    Definition(ClassNameDef, OptHandle(n.id), HandleOf(n), None, None, None)
  }

  /** A definition of `id` on the current scope, which stays current; a missing or non-Identifier `id` defines nothing. */
  function DefineOnCurrent(m: State, id: Option<Handle>, def: Definition): (r: State)
    requires Valid(m) && m.current.Some?
    ensures Valid(r) && Grows(m, r) && Local(m, r)
  {
    ValidCurrent(m);
    Define(m, m.current.value, id, def)
  }

  lemma DefineOnCurrentBinds(m: State, id: Option<Handle>, def: Definition)
    requires Valid(m) && m.current.Some? && IsIdent(id)
    ensures HasDef(DefineOnCurrent(m, id, def), m.current.value, id.value.name, def)
  {
    ValidCurrent(m);
    DefineHasDef(m, m.current.value, id.value, def);
  }

  /** The class scope, then the class name defined on it when there is one. */
  function ClassScopeStep(st: State, n: Node, useDirective: bool): (r: Result<State, Error>)
    requires Valid(st) && (n.ClassDeclaration? || n.ClassExpression?)
    ensures r.Success? ==> Valid(r.value) && Grows(st, r.value)
  {
    var m :- NestScope(st, n, false, Normal, useDirective);
    NestScopeOpens(st, n, false, Normal, useDirective);
    var r := DefineOnCurrent(m, OptHandle(n.id), ClassDef(n));
    GrowsTrans(st, m, r);
    Success(r)
  }

  lemma ClassScopeStepIs(st: State, n: Node, useDirective: bool)
    requires Valid(st) && (n.ClassDeclaration? || n.ClassExpression?)
    ensures var e := NestScope(st, n, false, Normal, useDirective);
      ClassScopeStep(st, n, useDirective) ==
        if e.Failure? then Failure(e.error) else Success(DefineOnCurrent(e.value, OptHandle(n.id), ClassDef(n)))
  {
  }

  /** Scope `k` is a class scope on `n`, binding the class name when the class has one. */
  ghost predicate ClassBound(st: State, k: nat, n: Node)
    requires n.ClassDeclaration? || n.ClassExpression?
  {
    && OpenedAt(st, k, n.nid, ClassScope)
    && (IsIdent(OptHandle(n.id)) ==> HasDef(st, k, OptHandle(n.id).value.name, ClassDef(n)))
  }

  lemma ClassBoundKept(a: State, b: State, k: nat, n: Node)
    requires (n.ClassDeclaration? || n.ClassExpression?) && ClassBound(a, k, n) && Grows(a, b)
    ensures ClassBound(b, k, n)
  {
    OpenedAtKept(a, b, k, n.nid, ClassScope);
    if IsIdent(OptHandle(n.id)) {
      HasDefKept(a, b, k, OptHandle(n.id).value.name, ClassDef(n));
    }
  }

  /** The scope type `__nestScope` gives each kind of block outside the special cases. */
  lemma NormalTypeOf(n: Node)
    ensures n.Program? ==> TypeOf(Normal, n) == GlobalScope
    ensures n.ForStatement? ==> TypeOf(Normal, n) == ForScope
    ensures n.BlockStatement? ==> TypeOf(Normal, n) == BlockScope
    ensures n.WithStatement? ==> TypeOf(Normal, n) == WithScope
    ensures n.SwitchStatement? ==> TypeOf(Normal, n) == SwitchScope
    ensures IsFunction(n) ==> TypeOf(Normal, n) == FunctionScope
    ensures !n.FunctionExpression? ==> !NeedsNameScope(n, Normal)
  {
  }

  lemma ModuleTypeOf(n: Node)
    ensures TypeOf(Module, n) == ModuleScope && (n.Program? ==> !NeedsNameScope(n, Module))
  {
  }

  lemma ForInTypeOf(n: Node)
    requires IsForIn(n)
    ensures TypeOf(Normal, n) == ForScope && !NeedsNameScope(n, Normal)
  {
  }

  lemma CatchTypeOf(n: Node)
    requires n.CatchClause?
    ensures TypeOf(Normal, n) == CatchScope && !NeedsNameScope(n, Normal)
  {
  }

  lemma ClassTypeOf(n: Node)
    requires n.ClassDeclaration? || n.ClassExpression?
    ensures TypeOf(Normal, n) == ClassScope && !NeedsNameScope(n, Normal)
  {
  }

  /** The class scope is the one new scope, current, and binds the class name. */
  lemma ClassScopeStepBinds(st: State, n: Node, useDirective: bool)
    requires Valid(st) && (n.ClassDeclaration? || n.ClassExpression?) && ClassScopeStep(st, n, useDirective).Success?
    ensures var r := ClassScopeStep(st, n, useDirective).value;
      r.current == Some(|st.scopes|) && ClassBound(r, |st.scopes|, n)
  {
    ClassTypeOf(n);
    var m := NestScope(st, n, false, Normal, useDirective).value;
    NestScopeOpens(st, n, false, Normal, useDirective);
    var r := DefineOnCurrent(m, OptHandle(n.id), ClassDef(n));
    assert ClassScopeStep(st, n, useDirective) == Success(r);
    OpenedAtKept(m, r, |st.scopes|, n.nid, ClassScope);
    if IsIdent(OptHandle(n.id)) {
      DefineOnCurrentBinds(m, OptHandle(n.id), ClassDef(n));
    }
  }

  // ---------------------------------------------------------------------
  // CatchClause: the catch scope

  /** The Definition of a catch parameter's names: CatchClause, always named by the whole parameter. */
  function CatchTemplate(n: Node): DefTemplate
    requires n.CatchClause?
  {
    DefTemplate(CatchClauseDef, Some(HandleOf(n.param)), HandleOf(n), None, None, None)
  }

  /** The catch scope, then the parameter's names defined on it. */
  function CatchStep(st: State, n: Node, useDirective: bool): (r: Result<State, Error>)
    requires Valid(st) && n.CatchClause?
    ensures r.Success? ==> Valid(r.value) && Grows(st, r.value)
  {
    var m :- NestScope(st, n, false, Normal, useDirective);
    ValidCurrent(m);
    var hits :- VisitPattern(Some(n.param));
    var r :- DefineAll(m, m.current, TargetsOf(hits), CatchTemplate(n));
    GrowsTrans(st, m, r);
    Success(r)
  }

  lemma CatchStepIs(st: State, n: Node, useDirective: bool)
    requires Valid(st) && n.CatchClause?
    ensures var e := NestScope(st, n, false, Normal, useDirective); var hits := VisitPattern(Some(n.param));
      CatchStep(st, n, useDirective) ==
        if e.Failure? then Failure(e.error)
        else if hits.Failure? then Failure(hits.error)
        else DefineAll(e.value, e.value.current, TargetsOf(hits.value), CatchTemplate(n))
  {
  }

  /** Scope `k` is a catch scope on `n` binding the parameter's names. */
  ghost predicate CatchBound(st: State, k: nat, n: Node)
    requires n.CatchClause?
  {
    var hits := VisitPattern(Some(n.param));
    OpenedAt(st, k, n.nid, CatchScope) && hits.Success? && DefinesAll(st, k, TargetsOf(hits.value), CatchTemplate(n))
  }

  lemma CatchBoundKept(a: State, b: State, k: nat, n: Node)
    requires n.CatchClause? && CatchBound(a, k, n) && Grows(a, b)
    ensures CatchBound(b, k, n)
  {
    OpenedAtKept(a, b, k, n.nid, CatchScope);
    DefinesAllKept(a, b, k, TargetsOf(VisitPattern(Some(n.param)).value), CatchTemplate(n));
  }

  /**
   * The catch scope is the one new scope and current; it binds the
   * parameter's names.  Once the scope is open, only a parameter that does
   * not walk makes the step fail.
   */
  lemma CatchStepBinds(st: State, n: Node, useDirective: bool)
    requires Valid(st) && n.CatchClause?
    ensures NestScope(st, n, false, Normal, useDirective).Success? ==>
      (CatchStep(st, n, useDirective).Failure? <==> VisitPattern(Some(n.param)).Failure?)
    ensures CatchStep(st, n, useDirective).Success? ==>
      var r := CatchStep(st, n, useDirective).value;
      r.current == Some(|st.scopes|) && CatchBound(r, |st.scopes|, n)
  {
    var e := NestScope(st, n, false, Normal, useDirective);
    var hits := VisitPattern(Some(n.param));
    if e.Success? && hits.Success? {
      CatchTypeOf(n);
      var m := e.value;
      NestScopeOpens(st, n, false, Normal, useDirective);
      var k := |st.scopes|;
      DefineAllDefines(m, k, TargetsOf(hits.value), CatchTemplate(n));
      var r := DefineAll(m, Some(k), TargetsOf(hits.value), CatchTemplate(n)).value;
      OpenedAtKept(m, r, k, n.nid, CatchScope);
    }
  }

  // ---------------------------------------------------------------------
  // ImportDeclaration

  /** The definitions of the import groups from index `i` on, in order, on scope `s`. */
  function DefineGroups(st: State, s: Option<ScopeId>, gs: seq<ImportGroup>, i: nat): (r: Result<State, Error>)
    requires Valid(st) && InRange(st, s) && i <= |gs|
    ensures r.Success? ==> Valid(r.value) && Grows(st, r.value) && Local(st, r.value)
    decreases |gs| - i
  {
    if i == |gs| then Success(st)
    else
      var m :- DefineAll(st, s, gs[i].targets, gs[i].tpl);
      var r :- DefineGroups(m, s, gs, i + 1);
      GrowsTrans(st, m, r);
      Success(r)
  }

  /** The names of every group from index `i` on are bound on `s`, each with the group's definition. */
  ghost predicate GroupsBound(st: State, s: ScopeId, gs: seq<ImportGroup>, i: nat)
  {
    forall k :: i <= k < |gs| ==> DefinesAll(st, s, gs[k].targets, gs[k].tpl)
  }

  /** On a scope, defining the groups never fails, and binds every group's names there. */
  lemma {:induction false} DefineGroupsDefines(st: State, s: ScopeId, gs: seq<ImportGroup>, i: nat)
    requires Valid(st) && s < |st.scopes| && i <= |gs|
    ensures DefineGroups(st, Some(s), gs, i).Success?
    ensures GroupsBound(DefineGroups(st, Some(s), gs, i).value, s, gs, i)
    decreases |gs| - i
  {
    if i < |gs| {
      DefineAllDefines(st, s, gs[i].targets, gs[i].tpl);
      var m := DefineAll(st, Some(s), gs[i].targets, gs[i].tpl).value;
      DefineGroupsDefines(m, s, gs, i + 1);
      var r := DefineGroups(m, Some(s), gs, i + 1).value;
      assert DefineGroups(st, Some(s), gs, i) == Success(r);
      DefinesAllKept(m, r, s, gs[i].targets, gs[i].tpl);
      forall k | i <= k < |gs| ensures DefinesAll(r, s, gs[k].targets, gs[k].tpl) {
        if k == i {
          assert DefinesAll(r, s, gs[i].targets, gs[i].tpl);
        }
      }
    }
  }
}
