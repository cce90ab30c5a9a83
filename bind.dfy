/**
 * What the Referencer's pattern callbacks (lib/referencer.js) do to the scope
 * records.  Every identifier the pattern walk reports is defined on a target
 * scope (`__define`), written from the current scope (`__referencing` with
 * WRITE), or both.  Each callback is a fold over the reported identifiers,
 * and the Referencer's loops are proved equal to these folds.
 *
 * The facts a fold establishes (a name bound to a Variable holding a given
 * definition; a write reference with given fields) survive every later step of
 * the analysis, because all steps only let the state grow.
 */
module Bindings {
  import opened Base
  import opened Ast
  import opened Scopes
  import opened Nesting
  import opened Patterns

  /** One identifier reported by the pattern walk, as the scope records hold it. */
  datatype Target = Target(id: Handle, toplevel: bool)

  function TargetsOf(hits: seq<Hit>): seq<Target>
  {
    seq(|hits|, i requires 0 <= i < |hits| => Target(HandleOf(hits[i].id), hits[i].toplevel))
  }

  /**
   * The Definition a defining callback builds.  Its `name` is the reported
   * identifier unless the call site fixes it (CatchClause passes `node.param`).
   */
  datatype DefTemplate = DefTemplate(defType: DefType, fixedName: Option<Handle>, node: Handle,
                                     parent: Option<Handle>, index: Option<nat>, kind: Option<DeclKind>)

  function DefFor(tpl: DefTemplate, id: Handle): Definition
  {
    Definition(tpl.defType, if tpl.fixedName.Some? then tpl.fixedName else Some(id), tpl.node, tpl.parent, tpl.index, tpl.kind)
  }

  /**
   * The arguments a writing callback passes to `__referencing`: the written
   * expression, the node recorded for implicit-global promotion (when the call
   * site offers one), and whether every write is partial or only the nested ones.
   */
  datatype WriteRule = WriteRule(writeExpr: Option<Handle>, implicitNode: Option<Handle>, allPartial: bool)

  /** The `maybeImplicitGlobal` record: only when offered and the current scope is not strict. */
  function ImplicitFor(w: WriteRule, t: Target, strict: bool): Option<ImplicitInfo>
  {
    if w.implicitNode.Some? && !strict then Some(ImplicitInfo(t.id, w.implicitNode.value)) else None
  }

  predicate InRange(st: State, s: Option<ScopeId>)
  {
    s.Some? ==> s.value < |st.scopes|
  }

  lemma LocalTrans(a: State, b: State, c: State)
    requires Local(a, b) && Local(b, c)
    ensures Local(a, c)
  {
  }

  // ---------------------------------------------------------------------
  // One callback call

  /** `scope.__define(pattern, def)`, where a null scope is the TypeError. */
  function DefineStep(st: State, s: Option<ScopeId>, t: Target, tpl: DefTemplate): (r: Result<State, Error>)
    requires Valid(st) && InRange(st, s)
    ensures r.Success? ==> Valid(r.value) && Grows(st, r.value) && Local(st, r.value) && r.value.refs == st.refs
  {
    if s.None? then Failure(NoCurrentScope) else Success(Define(st, s.value, Some(t.id), DefFor(tpl, t.id)))
  }

  /** `currentScope().__referencing(pattern, WRITE, …)`, where a null current scope is the TypeError. */
  function WriteStep(st: State, t: Target, w: WriteRule): (r: Result<State, Error>)
    requires Valid(st)
    ensures r.Success? ==> Valid(r.value) && Grows(st, r.value) && Local(st, r.value) && r.value.vars == st.vars
  {
    if st.current.None? then Failure(NoCurrentScope)
    else
      ValidCurrent(st);
      var c := st.current.value;
      Success(Referencing(st, c, Some(t.id), Some(Write), w.writeExpr,
                          ImplicitFor(w, t, st.scopes[c].isStrict), w.allPartial || !t.toplevel))
  }

  /** The `visitVariableDeclaration` callback: define on the target scope, then write when there is an initialiser. */
  function DeclareStep(st: State, s: Option<ScopeId>, t: Target, tpl: DefTemplate, init: Option<Handle>): (r: Result<State, Error>)
    requires Valid(st) && InRange(st, s)
    ensures r.Success? ==> Valid(r.value) && Grows(st, r.value) && Local(st, r.value)
  {
    var m :- DefineStep(st, s, t, tpl);
    if init.None? then Success(m)
    else
      var r :- WriteStep(m, t, WriteRule(init, None, false));
      GrowsTrans(st, m, r);
      Success(r)
  }

  // ---------------------------------------------------------------------
  // The folds, one step per reported identifier, in order

  function DefineAll(st: State, s: Option<ScopeId>, ts: seq<Target>, tpl: DefTemplate): (r: Result<State, Error>)
    requires Valid(st) && InRange(st, s)
    ensures r.Success? ==> Valid(r.value) && Grows(st, r.value) && Local(st, r.value) && r.value.refs == st.refs
    decreases |ts|
  {
    if ts == [] then Success(st)
    else
      var m :- DefineAll(st, s, ts[..|ts| - 1], tpl);
      var r :- DefineStep(m, s, ts[|ts| - 1], tpl);
      GrowsTrans(st, m, r);
      Success(r)
  }

  function WriteAll(st: State, ts: seq<Target>, w: WriteRule): (r: Result<State, Error>)
    requires Valid(st)
    ensures r.Success? ==> Valid(r.value) && Grows(st, r.value) && Local(st, r.value) && r.value.vars == st.vars
    decreases |ts|
  {
    if ts == [] then Success(st)
    else
      var m :- WriteAll(st, ts[..|ts| - 1], w);
      var r :- WriteStep(m, ts[|ts| - 1], w);
      GrowsTrans(st, m, r);
      Success(r)
  }

  function DeclareAll(st: State, s: Option<ScopeId>, ts: seq<Target>, tpl: DefTemplate, init: Option<Handle>): (r: Result<State, Error>)
    requires Valid(st) && InRange(st, s)
    ensures r.Success? ==> Valid(r.value) && Grows(st, r.value) && Local(st, r.value)
    decreases |ts|
  {
    if ts == [] then Success(st)
    else
      var m :- DeclareAll(st, s, ts[..|ts| - 1], tpl, init);
      var r :- DeclareStep(m, s, ts[|ts| - 1], tpl, init);
      GrowsTrans(st, m, r);
      Success(r)
  }

  // ---------------------------------------------------------------------
  // Facts that survive growth

  /** Scope `s` binds `name` to a Variable that holds definition `d`. */
  ghost predicate HasDef(st: State, s: ScopeId, name: string, d: Definition)
  {
    && s < |st.scopes| && name in st.scopes[s].names
    && st.scopes[s].names[name] < |st.vars|
    && d in st.vars[st.scopes[s].names[name]].defs
  }

  lemma HasDefKept(a: State, b: State, s: ScopeId, name: string, d: Definition)
    requires HasDef(a, s, name, d) && Grows(a, b)
    ensures HasDef(b, s, name, d)
  {
    var v := a.scopes[s].names[name];
    assert ScopeGrows(a.scopes[s], b.scopes[s]);
    assert VarGrows(a.vars[v], b.vars[v]);
    var j :| 0 <= j < |a.vars[v].defs| && a.vars[v].defs[j] == d;
    assert b.vars[v].defs[j] == d;
  }

  /** Reference `x` is the write of target `t` from scope `c` under rule `w`. */
  ghost predicate WriteOf(x: Reference, t: Target, c: ScopeId, w: WriteRule, strict: bool)
  {
    && x.identifier == t.id && x.from == c && x.flag == Write && x.writeExpr == w.writeExpr
    && x.partial == (w.allPartial || !t.toplevel) && x.maybeImplicitGlobal == ImplicitFor(w, t, strict)
  }

  /** Some reference at index `lo` or later is the write of `t` from `c` under `w`. */
  ghost predicate Wrote(st: State, lo: nat, t: Target, c: ScopeId, w: WriteRule, strict: bool)
  {
    exists x :: lo <= x < |st.refs| && WriteOf(st.refs[x], t, c, w, strict)
  }

  lemma WroteKept(a: State, b: State, lo: nat, t: Target, c: ScopeId, w: WriteRule, strict: bool)
    requires Wrote(a, lo, t, c, w, strict) && Grows(a, b)
    ensures Wrote(b, lo, t, c, w, strict)
  {
    var x :| lo <= x < |a.refs| && WriteOf(a.refs[x], t, c, w, strict);
    assert RefGrows(a.refs[x], b.refs[x]);
  }

  // ---------------------------------------------------------------------
  // Properties of the folds

  /** A single `__define` of an Identifier leaves the definition on the name's Variable. */
  lemma DefineHasDef(st: State, s: ScopeId, id: Handle, d: Definition)
    requires Valid(st) && s < |st.scopes| && id.Ident?
    ensures HasDef(Define(st, s, Some(id), d), s, id.name, d)
  {
    var r := Define(st, s, Some(id), d);
    var v := r.scopes[s].names[id.name];
    assert r.vars[v].defs == (if id.name in st.scopes[s].names then st.vars[v].defs else []) + [d];
  }

  /** A single `__define` adds the Identifier's name to the scope's table and changes no other scope. */
  lemma DefineNames(st: State, s: ScopeId, id: Handle, d: Definition)
    requires Valid(st) && s < |st.scopes|
    ensures var r := Define(st, s, Some(id), d);
      && r.scopes[s].names.Keys == st.scopes[s].names.Keys + (if id.Ident? then {id.name} else {})
      && (forall i :: 0 <= i < |st.scopes| && i != s ==> r.scopes[i] == st.scopes[i])
  {
    if id.Ident? {
      var r := Define(st, s, Some(id), d);
      var t := st.scopes[s].names;
      assert r.scopes[s].names == if id.name in t then t else t[id.name := |st.vars|];
    }
  }

  /** The names of the Identifier targets. */
  function Names(ts: seq<Target>): set<string>
  {
    set t | t in ts && t.id.Ident? :: t.id.name
  }

  lemma NamesLast(ts: seq<Target>)
    requires ts != []
    ensures Names(ts) == Names(ts[..|ts| - 1]) + (if ts[|ts| - 1].id.Ident? then {ts[|ts| - 1].id.name} else {})
  {
    assert ts == ts[..|ts| - 1] + [ts[|ts| - 1]];
  }

  /** The last step of a defining fold. */
  lemma DefineAllLast(st: State, s: Option<ScopeId>, ts: seq<Target>, tpl: DefTemplate)
    requires Valid(st) && InRange(st, s) && ts != []
    ensures var m := DefineAll(st, s, ts[..|ts| - 1], tpl);
      DefineAll(st, s, ts, tpl) == if m.Failure? then m else DefineStep(m.value, s, ts[|ts| - 1], tpl)
  {
  }

  /** Step `i` of a defining loop over `ts`. */
  lemma DefineAllNext(st: State, s: Option<ScopeId>, ts: seq<Target>, i: nat, tpl: DefTemplate)
    requires Valid(st) && InRange(st, s) && i < |ts|
    ensures var m := DefineAll(st, s, ts[..i], tpl);
      DefineAll(st, s, ts[..i + 1], tpl) == if m.Failure? then m else DefineStep(m.value, s, ts[i], tpl)
  {
    var pre := ts[..i + 1];
    assert pre[..|pre| - 1] == ts[..i] && pre[|pre| - 1] == ts[i];
    DefineAllLast(st, s, pre, tpl);
  }

  /** Defining fails exactly when there is something to define and no scope to define it on. */
  lemma {:induction false} DefineAllFails(st: State, s: Option<ScopeId>, ts: seq<Target>, tpl: DefTemplate)
    requires Valid(st) && InRange(st, s)
    ensures DefineAll(st, s, ts, tpl).Failure? <==> s.None? && ts != []
    ensures DefineAll(st, s, ts, tpl).Failure? ==> DefineAll(st, s, ts, tpl).error == NoCurrentScope
    decreases |ts|
  {
    if ts != [] {
      DefineAllLast(st, s, ts, tpl);
      DefineAllFails(st, s, ts[..|ts| - 1], tpl);
    }
  }

  /** Every Identifier target is bound in the scope to a Variable holding its definition. */
  lemma {:induction false} DefineAllDefines(st: State, s: ScopeId, ts: seq<Target>, tpl: DefTemplate)
    requires Valid(st) && s < |st.scopes|
    ensures DefineAll(st, Some(s), ts, tpl).Success?
    ensures forall t :: t in ts && t.id.Ident? ==> HasDef(DefineAll(st, Some(s), ts, tpl).value, s, t.id.name, DefFor(tpl, t.id))
    decreases |ts|
  {
    if ts != [] {
      var p, t := ts[..|ts| - 1], ts[|ts| - 1];
      assert ts == p + [t];
      DefineAllDefines(st, s, p, tpl);
      DefineAllLast(st, Some(s), ts, tpl);
      var m := DefineAll(st, Some(s), p, tpl).value;
      var r := Define(m, s, Some(t.id), DefFor(tpl, t.id));
      forall u | u in ts && u.id.Ident? ensures HasDef(r, s, u.id.name, DefFor(tpl, u.id)) {
        if u == t {
          DefineHasDef(m, s, t.id, DefFor(tpl, t.id));
        } else {
          assert u in p;
          HasDefKept(m, r, s, u.id.name, DefFor(tpl, u.id));
        }
      }
    }
  }

  /** The scope gains exactly the targets' names, and no other scope changes. */
  lemma {:induction false} DefineAllTables(st: State, s: ScopeId, ts: seq<Target>, tpl: DefTemplate)
    requires Valid(st) && s < |st.scopes|
    ensures DefineAll(st, Some(s), ts, tpl).Success?
    ensures var r := DefineAll(st, Some(s), ts, tpl).value;
      && r.scopes[s].names.Keys == st.scopes[s].names.Keys + Names(ts)
      && (forall i :: 0 <= i < |st.scopes| && i != s ==> r.scopes[i] == st.scopes[i])
    decreases |ts|
  {
    if ts != [] {
      var p, t := ts[..|ts| - 1], ts[|ts| - 1];
      DefineAllTables(st, s, p, tpl);
      DefineAllLast(st, Some(s), ts, tpl);
      var m := DefineAll(st, Some(s), p, tpl).value;
      assert DefineAll(st, Some(s), ts, tpl).value == Define(m, s, Some(t.id), DefFor(tpl, t.id));
      DefineNames(m, s, t.id, DefFor(tpl, t.id));
      NamesLast(ts);
    }
  }

  /** One write: an Identifier gets exactly one new reference, a write from the current scope; anything else gets none. */
  lemma WriteStepEffect(st: State, t: Target, w: WriteRule)
    requires Valid(st) && st.current.Some?
    ensures WriteStep(st, t, w).Success?
    ensures var r := WriteStep(st, t, w).value; var c := st.current.value;
      && c < |st.scopes|
      && |r.refs| == |st.refs| + (if t.id.Ident? then 1 else 0) && r.refs[..|st.refs|] == st.refs
      && (t.id.Ident? ==> WriteOf(r.refs[|st.refs|], t, c, w, st.scopes[c].isStrict))
  {
    ValidCurrent(st);
  }

  /** The last step of a writing fold. */
  lemma WriteAllLast(st: State, ts: seq<Target>, w: WriteRule)
    requires Valid(st) && ts != []
    ensures var m := WriteAll(st, ts[..|ts| - 1], w);
      WriteAll(st, ts, w) == if m.Failure? then m else WriteStep(m.value, ts[|ts| - 1], w)
  {
  }

  /** Step `i` of a writing loop over `ts`. */
  lemma WriteAllNext(st: State, ts: seq<Target>, i: nat, w: WriteRule)
    requires Valid(st) && i < |ts|
    ensures var m := WriteAll(st, ts[..i], w);
      WriteAll(st, ts[..i + 1], w) == if m.Failure? then m else WriteStep(m.value, ts[i], w)
  {
    var pre := ts[..i + 1];
    assert pre[..|pre| - 1] == ts[..i] && pre[|pre| - 1] == ts[i];
    WriteAllLast(st, pre, w);
  }

  /** Writing fails exactly when there is something to write and no current scope. */
  lemma {:induction false} WriteAllFails(st: State, ts: seq<Target>, w: WriteRule)
    requires Valid(st)
    ensures WriteAll(st, ts, w).Failure? <==> st.current.None? && ts != []
    ensures WriteAll(st, ts, w).Failure? ==> WriteAll(st, ts, w).error == NoCurrentScope
    decreases |ts|
  {
    if ts != [] {
      WriteAllLast(st, ts, w);
      WriteAllFails(st, ts[..|ts| - 1], w);
    }
  }

  /** The strictness of the current scope, which no step changes. */
  function CurrentStrict(st: State): bool
    requires Valid(st) && st.current.Some?
  {
    ValidCurrent(st);
    st.scopes[st.current.value].isStrict
  }

  lemma CurrentStrictKept(a: State, b: State)
    requires Valid(a) && Valid(b) && a.current.Some? && Grows(a, b) && Local(a, b)
    ensures b.current.Some? && CurrentStrict(b) == CurrentStrict(a)
  {
    ValidCurrent(a);
    assert ScopeGrows(a.scopes[a.current.value], b.scopes[a.current.value]);
  }

  /**
   * Each Identifier target gets a write reference from the current scope, with
   * `partial` and the implicit-global record as the rule says.
   */
  lemma {:induction false} WriteAllWrites(st: State, ts: seq<Target>, w: WriteRule)
    requires Valid(st) && st.current.Some?
    ensures WriteAll(st, ts, w).Success?
    ensures forall t :: t in ts && t.id.Ident? ==>
      Wrote(WriteAll(st, ts, w).value, |st.refs|, t, st.current.value, w, CurrentStrict(st))
    decreases |ts|
  {
    if ts != [] {
      var p, t := ts[..|ts| - 1], ts[|ts| - 1];
      assert ts == p + [t];
      WriteAllWrites(st, p, w);
      WriteAllLast(st, ts, w);
      var m := WriteAll(st, p, w).value;
      CurrentStrictKept(st, m);
      WriteStepEffect(m, t, w);
      var r := WriteStep(m, t, w).value;
      forall u | u in ts && u.id.Ident? ensures Wrote(r, |st.refs|, u, st.current.value, w, CurrentStrict(st)) {
        if u == t {
          assert WriteOf(r.refs[|m.refs|], t, st.current.value, w, CurrentStrict(st));
        } else {
          assert u in p;
          WroteKept(m, r, |st.refs|, u, st.current.value, w, CurrentStrict(st));
        }
      }
    }
  }

  /** Reference `x` is the write of one of the targets. */
  ghost predicate WriteOfSome(x: Reference, ts: seq<Target>, c: ScopeId, w: WriteRule, strict: bool)
  {
    exists t :: t in ts && WriteOf(x, t, c, w, strict)
  }

  /** Every reference a state has beyond `st`'s is the write of one of the targets. */
  ghost predicate OnlyWrites(st: State, r: State, ts: seq<Target>, c: ScopeId, w: WriteRule, strict: bool)
  {
    && |st.refs| <= |r.refs|
    && (forall x :: |st.refs| <= x < |r.refs| ==> WriteOfSome(r.refs[x], ts, c, w, strict))
  }

  lemma OnlyWritesStep(st: State, m: State, r: State, p: seq<Target>, t: Target, c: ScopeId, w: WriteRule, strict: bool)
    requires OnlyWrites(st, m, p, c, w, strict) && m.refs[..|st.refs|] == st.refs
    requires |r.refs| == |m.refs| + (if t.id.Ident? then 1 else 0) && r.refs[..|m.refs|] == m.refs
    requires t.id.Ident? ==> WriteOf(r.refs[|m.refs|], t, c, w, strict)
    ensures OnlyWrites(st, r, p + [t], c, w, strict) && r.refs[..|st.refs|] == st.refs
  {
    var ts := p + [t];
    forall x | |st.refs| <= x < |r.refs| ensures WriteOfSome(r.refs[x], ts, c, w, strict) {
      if x < |m.refs| {
        assert WriteOfSome(m.refs[x], p, c, w, strict);
        var u :| u in p && WriteOf(m.refs[x], u, c, w, strict);
        assert r.refs[x] == m.refs[x] && u in ts;
      } else {
        assert t in ts && WriteOf(r.refs[x], t, c, w, strict);
      }
    }
    assert r.refs[..|st.refs|] == m.refs[..|st.refs|];
  }

  /** Writing adds no reference but those writes, and keeps the existing ones. */
  lemma {:induction false} WriteAllOnly(st: State, ts: seq<Target>, w: WriteRule)
    requires Valid(st) && st.current.Some?
    ensures WriteAll(st, ts, w).Success?
    ensures var r := WriteAll(st, ts, w).value;
      r.refs[..|st.refs|] == st.refs && OnlyWrites(st, r, ts, st.current.value, w, CurrentStrict(st))
    decreases |ts|
  {
    if ts != [] {
      var p, t := ts[..|ts| - 1], ts[|ts| - 1];
      assert ts == p + [t];
      WriteAllOnly(st, p, w);
      WriteAllLast(st, ts, w);
      var m := WriteAll(st, p, w).value;
      CurrentStrictKept(st, m);
      WriteStepEffect(m, t, w);
      var r := WriteStep(m, t, w).value;
      OnlyWritesStep(st, m, r, p, t, st.current.value, w, CurrentStrict(st));
    } else {
      assert WriteAll(st, ts, w) == Success(st);
    }
  }

  /** The last step of a declaring fold. */
  lemma DeclareAllLast(st: State, s: Option<ScopeId>, ts: seq<Target>, tpl: DefTemplate, init: Option<Handle>)
    requires Valid(st) && InRange(st, s) && ts != []
    ensures var m := DeclareAll(st, s, ts[..|ts| - 1], tpl, init);
      DeclareAll(st, s, ts, tpl, init) == if m.Failure? then m else DeclareStep(m.value, s, ts[|ts| - 1], tpl, init)
  {
  }

  /** Step `i` of a declaring loop over `ts`. */
  lemma DeclareAllNext(st: State, s: Option<ScopeId>, ts: seq<Target>, i: nat, tpl: DefTemplate, init: Option<Handle>)
    requires Valid(st) && InRange(st, s) && i < |ts|
    ensures var m := DeclareAll(st, s, ts[..i], tpl, init);
      DeclareAll(st, s, ts[..i + 1], tpl, init) == if m.Failure? then m else DeclareStep(m.value, s, ts[i], tpl, init)
  {
    var pre := ts[..i + 1];
    assert pre[..|pre| - 1] == ts[..i] && pre[|pre| - 1] == ts[i];
    DeclareAllLast(st, s, pre, tpl, init);
  }

  /** Without an initialiser, declaring is defining. */
  lemma {:induction false} DeclareWithoutInit(st: State, s: Option<ScopeId>, ts: seq<Target>, tpl: DefTemplate)
    requires Valid(st) && InRange(st, s)
    ensures DeclareAll(st, s, ts, tpl, None) == DefineAll(st, s, ts, tpl)
    decreases |ts|
  {
    if ts != [] {
      DeclareAllLast(st, s, ts, tpl, None);
      DefineAllLast(st, s, ts, tpl);
      DeclareWithoutInit(st, s, ts[..|ts| - 1], tpl);
    }
  }

  /**
   * Declaring fails exactly when there is something to declare and either no
   * target scope or, with an initialiser, no current scope.
   */
  lemma {:induction false} DeclareAllFails(st: State, s: Option<ScopeId>, ts: seq<Target>, tpl: DefTemplate, init: Option<Handle>)
    requires Valid(st) && InRange(st, s)
    ensures DeclareAll(st, s, ts, tpl, init).Failure? <==> ts != [] && (s.None? || (init.Some? && st.current.None?))
    ensures DeclareAll(st, s, ts, tpl, init).Failure? ==> DeclareAll(st, s, ts, tpl, init).error == NoCurrentScope
    decreases |ts|
  {
    if ts != [] {
      DeclareAllLast(st, s, ts, tpl, init);
      DeclareAllFails(st, s, ts[..|ts| - 1], tpl, init);
      var m := DeclareAll(st, s, ts[..|ts| - 1], tpl, init);
      if m.Success? && s.Some? {
        assert m.value.current == st.current;
      }
    }
  }

  /** One declaring step with an initialiser: the definition, then exactly one write of an Identifier. */
  lemma DeclareStepEffect(m: State, s: ScopeId, t: Target, tpl: DefTemplate, init: Handle)
    requires Valid(m) && s < |m.scopes| && m.current.Some?
    ensures DeclareStep(m, Some(s), t, tpl, Some(init)).Success?
    ensures var r := DeclareStep(m, Some(s), t, tpl, Some(init)).value; var w := WriteRule(Some(init), None, false);
      && Grows(m, r) && Local(m, r)
      && (t.id.Ident? ==> HasDef(r, s, t.id.name, DefFor(tpl, t.id)))
      && r.refs == m.refs + (if t.id.Ident? then [r.refs[|m.refs|]] else [])
      && (t.id.Ident? ==> WriteOf(r.refs[|m.refs|], t, m.current.value, w, CurrentStrict(m)))
  {
    var d := Define(m, s, Some(t.id), DefFor(tpl, t.id));
    var w := WriteRule(Some(init), None, false);
    CurrentStrictKept(m, d);
    WriteStepEffect(d, t, w);
    var r := WriteStep(d, t, w).value;
    assert DeclareStep(m, Some(s), t, tpl, Some(init)) == Success(r);
    if t.id.Ident? {
      DefineHasDef(m, s, t.id, DefFor(tpl, t.id));
      HasDefKept(d, r, s, t.id.name, DefFor(tpl, t.id));
    }
  }

  /** Every Identifier target is bound in the target scope to a Variable holding its definition. */
  lemma {:induction false} DeclareAllDefines(st: State, s: ScopeId, ts: seq<Target>, tpl: DefTemplate, init: Option<Handle>)
    requires Valid(st) && s < |st.scopes| && (init.Some? ==> st.current.Some?)
    ensures DeclareAll(st, Some(s), ts, tpl, init).Success?
    ensures forall t :: t in ts && t.id.Ident? ==> HasDef(DeclareAll(st, Some(s), ts, tpl, init).value, s, t.id.name, DefFor(tpl, t.id))
    decreases |ts|
  {
    if init.None? {
      DeclareWithoutInit(st, Some(s), ts, tpl);
      DefineAllDefines(st, s, ts, tpl);
    } else if ts != [] {
      var p, t := ts[..|ts| - 1], ts[|ts| - 1];
      assert ts == p + [t];
      DeclareAllDefines(st, s, p, tpl, init);
      DeclareAllLast(st, Some(s), ts, tpl, init);
      var m := DeclareAll(st, Some(s), p, tpl, init).value;
      DeclareStepEffect(m, s, t, tpl, init.value);
      var r := DeclareStep(m, Some(s), t, tpl, init).value;
      forall u | u in ts && u.id.Ident? ensures HasDef(r, s, u.id.name, DefFor(tpl, u.id)) {
        if u != t {
          assert u in p;
          HasDefKept(m, r, s, u.id.name, DefFor(tpl, u.id));
        }
      }
    }
  }

  /** With an initialiser, every Identifier target is written from the current scope, `partial` when nested. */
  lemma {:induction false} DeclareAllWrites(st: State, s: ScopeId, ts: seq<Target>, tpl: DefTemplate, init: Handle)
    requires Valid(st) && s < |st.scopes| && st.current.Some?
    ensures DeclareAll(st, Some(s), ts, tpl, Some(init)).Success?
    ensures forall t :: t in ts && t.id.Ident? ==>
      Wrote(DeclareAll(st, Some(s), ts, tpl, Some(init)).value, |st.refs|, t, st.current.value,
            WriteRule(Some(init), None, false), CurrentStrict(st))
    decreases |ts|
  {
    if ts != [] {
      var p, t := ts[..|ts| - 1], ts[|ts| - 1];
      var w := WriteRule(Some(init), None, false);
      assert ts == p + [t];
      DeclareAllWrites(st, s, p, tpl, init);
      DeclareAllLast(st, Some(s), ts, tpl, Some(init));
      var m := DeclareAll(st, Some(s), p, tpl, Some(init)).value;
      CurrentStrictKept(st, m);
      DeclareStepEffect(m, s, t, tpl, init);
      var r := DeclareStep(m, Some(s), t, tpl, Some(init)).value;
      forall u | u in ts && u.id.Ident? ensures Wrote(r, |st.refs|, u, st.current.value, w, CurrentStrict(st)) {
        if u == t {
          assert WriteOf(r.refs[|m.refs|], t, st.current.value, w, CurrentStrict(st));
        } else {
          assert u in p;
          WroteKept(m, r, |st.refs|, u, st.current.value, w, CurrentStrict(st));
        }
      }
    }
  }

  /** With an initialiser, declaring adds no reference but those writes, and keeps the existing ones. */
  lemma {:induction false} DeclareAllOnly(st: State, s: ScopeId, ts: seq<Target>, tpl: DefTemplate, init: Handle)
    requires Valid(st) && s < |st.scopes| && st.current.Some?
    ensures DeclareAll(st, Some(s), ts, tpl, Some(init)).Success?
    ensures var r := DeclareAll(st, Some(s), ts, tpl, Some(init)).value;
      r.refs[..|st.refs|] == st.refs && OnlyWrites(st, r, ts, st.current.value, WriteRule(Some(init), None, false), CurrentStrict(st))
    decreases |ts|
  {
    if ts != [] {
      var p, t := ts[..|ts| - 1], ts[|ts| - 1];
      var w := WriteRule(Some(init), None, false);
      assert ts == p + [t];
      DeclareAllOnly(st, s, p, tpl, init);
      DeclareAllLast(st, Some(s), ts, tpl, Some(init));
      var m := DeclareAll(st, Some(s), p, tpl, Some(init)).value;
      CurrentStrictKept(st, m);
      DeclareStepEffect(m, s, t, tpl, init);
      var r := DeclareStep(m, Some(s), t, tpl, Some(init)).value;
      OnlyWritesStep(st, m, r, p, t, st.current.value, w, CurrentStrict(st));
    } else {
      assert DeclareAll(st, Some(s), ts, tpl, Some(init)) == Success(st);
    }
  }
}
