/**
 * `isStrictScope` of lib/scope.js: whether a new scope is in strict mode,
 * decided by the kind of scope, its `upper`, and the directive prologue of
 * the function or program body.
 */
module Strictness {
  import opened Base
  import opened Ast
  import opened Scopes

  /**
   * A statement of the directive prologue: a DirectiveStatement when the
   * parser produces them, otherwise an expression statement whose expression
   * is a string Literal.
   */
  predicate IsDirective(stmt: Node, useDirective: bool)
  {
    if useDirective then stmt.DirectiveStatement?
    else stmt.ExpressionStatement? && stmt.expression.Literal? && stmt.expression.literal.StringValue?
  }

  /**
   * A Use Strict Directive: its raw text is `"use strict"` or `'use strict'`;
   * a string Literal without raw text counts when its value is `use strict`.
   */
  predicate IsUseStrict(stmt: Node, useDirective: bool)
  {
    && IsDirective(stmt, useDirective)
    && var raw := if useDirective then stmt.raw else stmt.expression.raw;
       if raw.Some? then raw.value == "\"use strict\"" || raw.value == "'use strict'"
       else !useDirective && stmt.expression.literal.text == "use strict"
  }

  /** The directive prologue: the longest run of directives at the start of a statement list. */
  function Prologue(stmts: seq<Node>, useDirective: bool): (p: seq<Node>)
    ensures p <= stmts
    ensures forall i :: 0 <= i < |p| ==> IsDirective(p[i], useDirective)
    ensures |p| < |stmts| ==> !IsDirective(stmts[|p|], useDirective)
  {
    if stmts == [] || !IsDirective(stmts[0], useDirective) then []
    else [stmts[0]] + Prologue(stmts[1..], useDirective)
  }

  /** The prologue holds a Use Strict Directive (section 10.2.1 of ECMAScript 2015). */
  predicate PrologueStrict(stmts: seq<Node>, useDirective: bool)
  {
    exists d :: d in Prologue(stmts, useDirective) && IsUseStrict(d, useDirective)
  }

  /**
   * The prologue rule spelled out: some statement declares strict mode and
   * every statement before it is a directive.
   */
  lemma {:induction false} PrologueStrictAt(stmts: seq<Node>, useDirective: bool)
    ensures PrologueStrict(stmts, useDirective) <==>
      exists i :: 0 <= i < |stmts| && IsUseStrict(stmts[i], useDirective) &&
        forall j :: 0 <= j < i ==> IsDirective(stmts[j], useDirective)
  {
    var p := Prologue(stmts, useDirective);
    if PrologueStrict(stmts, useDirective) {
      var d :| d in p && IsUseStrict(d, useDirective);
      var i :| 0 <= i < |p| && p[i] == d;
      assert stmts[i] == p[i];
      assert forall j :: 0 <= j < i ==> stmts[j] == p[j];
    }
    if exists i :: 0 <= i < |stmts| && IsUseStrict(stmts[i], useDirective) &&
        forall j :: 0 <= j < i ==> IsDirective(stmts[j], useDirective) {
      var i :| 0 <= i < |stmts| && IsUseStrict(stmts[i], useDirective) &&
        forall j :: 0 <= j < i ==> IsDirective(stmts[j], useDirective);
      assert p[i] == stmts[i];
      assert p[i] in p;
    }
  }

  /**
   * What `isStrictScope` decides for a scope of type `t` opened on `block`,
   * given whether its upper scope is strict.  A function or global block
   * without a statement-list body is malformed.
   */
  function StrictRule(upperStrict: bool, t: ScopeType, block: Node, isMethodDefinition: bool, useDirective: bool): Result<bool, Error>
  {
    if upperStrict || block.ArrowFunctionExpression? || isMethodDefinition || t == ClassScope || t == ModuleScope then
      Success(true)
    else DirectiveRule(t, block, useDirective)
  }

  /** The rest of the rule: only function and global scopes look for a directive. */
  function DirectiveRule(t: ScopeType, block: Node, useDirective: bool): Result<bool, Error>
  {
    if t == FunctionScope then
      if FunctionBody(block).Some? then BodyStrict(FunctionBody(block).value, useDirective)
      else Failure(MalformedNode)
    else if t == GlobalScope then BodyStrict(block, useDirective)
    else Success(false)
  }

  /** `block.body` of a function declaration or expression. */
  function FunctionBody(block: Node): Option<Node>
  {
    match block
    case FunctionDeclaration(_, _, _, body) => Some(body)
    case FunctionExpression(_, _, _, body) => Some(body)
    case _ => None
  }

  /** Whether the prologue of a body declares strict mode; a body that is not a statement list is malformed. */
  function BodyStrict(body: Node, useDirective: bool): Result<bool, Error>
  {
    if body.BlockStatement? || body.Program? then Success(PrologueStrict(body.statements, useDirective))
    else Failure(MalformedNode)
  }

  /**
   * `isStrictScope`: the rule above, with the prologue scanned statement by
   * statement until the first non-directive.
   */
  method IsStrictScope(upperStrict: bool, t: ScopeType, block: Node, isMethodDefinition: bool, useDirective: bool)
    returns (r: Result<bool, Error>)
    ensures r == StrictRule(upperStrict, t, block, isMethodDefinition, useDirective)
  {
    if upperStrict {
      return Success(true);
    }
    if block.ArrowFunctionExpression? {
      return Success(true);
    }
    if isMethodDefinition {
      return Success(true);
    }
    if t == ClassScope || t == ModuleScope {
      return Success(true);
    }
    r := SearchBody(t, block, useDirective);
  }

  /** `isStrictScope` once the unconditional cases are excluded. */
  method SearchBody(t: ScopeType, block: Node, useDirective: bool) returns (r: Result<bool, Error>)
    ensures r == DirectiveRule(t, block, useDirective)
  {
    if t == BlockScope || t == SwitchScope {
      return Success(false);
    }
    if t == FunctionScope {
      var body := FunctionBody(block);
      if body.None? {
        return Failure(MalformedNode);
      }
      r := SearchDirective(body.value, useDirective);
    } else if t == GlobalScope {
      r := SearchDirective(block, useDirective);
    } else {
      r := Success(false);
    }
  }

  /** The `body.body` the search loops of `isStrictScope` run over. */
  method SearchDirective(body: Node, useDirective: bool) returns (r: Result<bool, Error>)
    ensures r == BodyStrict(body, useDirective)
  {
    if !(body.BlockStatement? || body.Program?) {
      return Failure(MalformedNode);
    }
    var strict := ScanPrologue(body.statements, useDirective);
    return Success(strict);
  }

  /** The two search loops of `isStrictScope`, over a statement list. */
  method ScanPrologue(stmts: seq<Node>, useDirective: bool) returns (strict: bool)
    ensures strict == PrologueStrict(stmts, useDirective)
  {
    ghost var p := Prologue(stmts, useDirective);
    var i := 0;
    if useDirective {
      while i < |stmts|
        invariant i <= |p|
        invariant forall j :: 0 <= j < i ==> !IsUseStrict(stmts[j], useDirective)
      {
        var stmt := stmts[i];
        if !stmt.DirectiveStatement? {
          break;
        }
        if stmt.raw == Some("\"use strict\"") || stmt.raw == Some("'use strict'") {
          FoundInPrologue(stmts, useDirective, i);
          return true;
        }
        i := i + 1;
      }
    } else {
      while i < |stmts|
        invariant i <= |p|
        invariant forall j :: 0 <= j < i ==> !IsUseStrict(stmts[j], useDirective)
      {
        var stmt := stmts[i];
        if !stmt.ExpressionStatement? {
          break;
        }
        var expr := stmt.expression;
        if !(expr.Literal? && expr.literal.StringValue?) {
          break;
        }
        if expr.raw.Some? {
          if expr.raw.value == "\"use strict\"" || expr.raw.value == "'use strict'" {
            FoundInPrologue(stmts, useDirective, i);
            return true;
          }
        } else if expr.literal.text == "use strict" {
          FoundInPrologue(stmts, useDirective, i);
          return true;
        }
        i := i + 1;
      }
    }
    NotInPrologue(stmts, useDirective, i);
    return false;
  }

  lemma FoundInPrologue(stmts: seq<Node>, useDirective: bool, i: nat)
    requires i <= |Prologue(stmts, useDirective)| && i < |stmts| && IsUseStrict(stmts[i], useDirective)
    ensures PrologueStrict(stmts, useDirective)
  {
    var p := Prologue(stmts, useDirective);
    assert p[i] == stmts[i] && p[i] in p;
  }

  lemma NotInPrologue(stmts: seq<Node>, useDirective: bool, i: nat)
    requires i <= |Prologue(stmts, useDirective)| && i <= |stmts|
    requires i < |stmts| ==> !IsDirective(stmts[i], useDirective)
    requires forall j :: 0 <= j < i ==> !IsUseStrict(stmts[j], useDirective)
    ensures !PrologueStrict(stmts, useDirective)
  {
    var p := Prologue(stmts, useDirective);
    forall d | d in p ensures !IsUseStrict(d, useDirective) {
      var j :| 0 <= j < |p| && p[j] == d;
      assert stmts[j] == p[j];
    }
  }

  /**
   * The rule fails only on a malformed block: a function declaration or
   * expression without a body, or a function body or program that is not a
   * statement list.
   */
  lemma StrictRuleFailure(upperStrict: bool, t: ScopeType, block: Node, isMethodDefinition: bool, useDirective: bool)
    requires StrictRule(upperStrict, t, block, isMethodDefinition, useDirective).Failure?
    ensures StrictRule(upperStrict, t, block, isMethodDefinition, useDirective).error == MalformedNode
    ensures !upperStrict && (t == FunctionScope || t == GlobalScope)
    ensures t == FunctionScope ==>
      FunctionBody(block).None? || !(FunctionBody(block).value.BlockStatement? || FunctionBody(block).value.Program?)
    ensures t == GlobalScope ==> !(block.BlockStatement? || block.Program?)
  {
  }
}
