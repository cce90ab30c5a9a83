/**
 * The Importer of lib/referencer.js: a visitor over an ImportDeclaration
 * whose only handlers are the three specifier types.  Each specifier hands
 * its local name to `visitImport`, which defines every identifier of that
 * pattern in the current scope with an ImportBinding definition.  Here the
 * walk collects, in visiting order, what is to be defined; the Referencer
 * then defines it.
 */
module Imports {
  import opened Base
  import opened Ast
  import opened Scopes
  import opened Patterns
  import opened Bindings

  /** What one `visitImport` call defines: the identifiers of a pattern, and their Definition. */
  datatype ImportGroup = ImportGroup(targets: seq<Target>, tpl: DefTemplate)

  /** The Definition `visitImport(id, specifier)` gives: ImportBinding, named by the identifier, on the specifier. */
  function ImportTemplate(spec: Node, decl: Handle): DefTemplate
  {
    DefTemplate(ImportBindingDef, None, HandleOf(spec), Some(decl), None, None)
  }

  /**
   * `visitImport(id, specifier)`: one group, the identifiers of `id` with
   * the specifier's Definition; a missing `id` walks nothing, so its group
   * is empty.
   */
  function VisitImport(id: Option<Node>, spec: Node, decl: Handle): (r: Result<seq<ImportGroup>, Error>)
    ensures r.Success? ==> |r.value| == 1 && r.value[0].tpl == ImportTemplate(spec, decl)
    ensures id.None? ==> r == Success([ImportGroup([], ImportTemplate(spec, decl))])
  {
    var hits :- VisitPattern(id);
    assert id.None? ==> TargetsOf(hits) == [];
    Success([ImportGroup(TargetsOf(hits), ImportTemplate(spec, decl))])
  }

  /**
   * The Importer's visit of `n`: a specifier is handled (a namespace
   * specifier only when it has an `id`; an ImportSpecifier by its local
   * name when it has one, else by its imported name); any other node has
   * its children visited.
   */
  function ImportWalk(n: Node, decl: Handle): Result<seq<ImportGroup>, Error>
    decreases n, |Children(n)| + 1
  {
    match n
    case ImportNamespaceSpecifier(_, id) => if id.Some? then VisitImport(id, n, decl) else Success([])
    case ImportDefaultSpecifier(_, id) => VisitImport(id, n, decl)
    case ImportSpecifier(_, id, alias) => VisitImport(if alias.Some? then alias else id, n, decl)
    case _ => ImportChildren(Children(n), n, decl)
  }

  function ImportChildren(cs: seq<Node>, parent: Node, decl: Handle): Result<seq<ImportGroup>, Error>
    requires forall c :: c in cs ==> c < parent
    decreases parent, |cs|
  {
    if cs == [] then Success([])
    else
      assert cs[0] in cs;
      var first :- ImportWalk(cs[0], decl);
      assert forall c :: c in cs[1..] ==> c in cs;
      var rest :- ImportChildren(cs[1..], parent, decl);
      Success(first + rest)
  }

  // ---------------------------------------------------------------------
  // Properties of the walk

  /** Every group the walk yields is an ImportBinding of the declaration, named by its identifier. */
  lemma {:induction false} WalkTemplates(n: Node, decl: Handle)
    requires ImportWalk(n, decl).Success?
    ensures forall g :: g in ImportWalk(n, decl).value ==>
      g.tpl.defType == ImportBindingDef && g.tpl.fixedName.None? && g.tpl.parent == Some(decl)
      && g.tpl.index.None? && g.tpl.kind.None?
    decreases n, |Children(n)| + 1
  {
    if !(n.ImportNamespaceSpecifier? || n.ImportDefaultSpecifier? || n.ImportSpecifier?) {
      ChildrenTemplates(Children(n), n, decl);
    }
  }

  lemma {:induction false} ChildrenTemplates(cs: seq<Node>, parent: Node, decl: Handle)
    requires forall c :: c in cs ==> c < parent
    requires ImportChildren(cs, parent, decl).Success?
    ensures forall g :: g in ImportChildren(cs, parent, decl).value ==>
      g.tpl.defType == ImportBindingDef && g.tpl.fixedName.None? && g.tpl.parent == Some(decl)
      && g.tpl.index.None? && g.tpl.kind.None?
    decreases parent, |cs|
  {
    if cs != [] {
      assert cs[0] in cs;
      WalkTemplates(cs[0], decl);
      assert forall c :: c in cs[1..] ==> c in cs;
      ChildrenTemplates(cs[1..], parent, decl);
    }
  }

  /**
   * A specifier whose local name is an Identifier `x` (`import x from`,
   * `import * as x from`, `import {y as x} from`, `import {x} from`) yields
   * one group: `x` alone, as a top-level identifier, defined on the specifier.
   */
  lemma SimpleSpecifier(s: Node, x: Node, decl: Handle)
    requires LocalName(s) == Some(x) && x.Identifier?
    ensures ImportWalk(s, decl) == Success([ImportGroup([Target(HandleOf(x), true)], ImportTemplate(s, decl))])
  {
    IdentifierPattern(x);
    assert TargetsOf([Hit(x, true)]) == [Target(HandleOf(x), true)];
  }

  /** The local name of a specifier, as its handler chooses it. */
  function LocalName(s: Node): Option<Node>
  {
    match s
    case ImportNamespaceSpecifier(_, id) => id
    case ImportDefaultSpecifier(_, id) => id
    case ImportSpecifier(_, id, alias) => if alias.Some? then alias else id
    case _ => None
  }

  /**
   * A default specifier without an `id` is not guarded as a namespace
   * specifier is, but the walk of the missing `id` calls nothing: its one
   * group binds no identifier.
   */
  lemma DefaultWithoutId(s: Node, decl: Handle)
    requires s.ImportDefaultSpecifier? && s.id.None?
    ensures ImportWalk(s, decl) == Success([ImportGroup([], ImportTemplate(s, decl))])
  {
  }

  /** A namespace specifier without an `id` defines nothing. */
  lemma NamespaceWithoutId(s: Node, decl: Handle)
    requires s.ImportNamespaceSpecifier? && s.id.None?
    ensures ImportWalk(s, decl) == Success([])
  {
  }

  /**
   * `import a, * as b, {c as d} from "m"`: when every specifier has an
   * Identifier local name and the source is a Literal, the walk yields one
   * group per specifier, in order, each binding that name.
   */
  lemma {:induction false} FlatImport(n: Node, decl: Handle)
    requires n.ImportDeclaration?
    requires forall s :: s in n.specifiers ==> LocalName(s).Some? && LocalName(s).value.Identifier?
    requires n.source.Some? ==> n.source.value.Literal?
    ensures ImportWalk(n, decl).Success?
    ensures |ImportWalk(n, decl).value| == |n.specifiers|
    ensures forall i :: 0 <= i < |n.specifiers| ==>
      ImportWalk(n, decl).value[i] == ImportGroup([Target(HandleOf(LocalName(n.specifiers[i]).value), true)],
                                                  ImportTemplate(n.specifiers[i], decl))
  {
    assert Fields(n) == [Many(n.specifiers), One(n.source)];
    assert Flatten(Fields(n)) == n.specifiers + Flatten([One(n.source)]);
    assert Flatten([One(n.source)]) == Opt(n.source) + Flatten([]);
    var tail := Opt(n.source);
    if n.source.Some? {
      LiteralSilent(n.source.value, decl);
      assert tail[1..] == [];
      var none: seq<ImportGroup> := [];
      assert none + none == none;
    }
    assert ImportChildren(tail, n, decl) == Success([]);
    assert Children(n) == n.specifiers + tail;
    SpecifiersThenSource(n.specifiers, tail, n, decl);
  }

  lemma LiteralSilent(l: Node, decl: Handle)
    requires l.Literal?
    ensures ImportWalk(l, decl) == Success([])
  {
    assert Fields(l) == [];
    assert Flatten([]) == [];
  }

  /** The walk of specifiers followed by other children is the specifiers' groups followed by theirs. */
  lemma {:induction false} SpecifiersThenSource(ss: seq<Node>, tail: seq<Node>, parent: Node, decl: Handle)
    requires forall c :: c in ss + tail ==> c < parent
    requires forall c :: c in tail ==> c < parent
    requires forall s :: s in ss ==> LocalName(s).Some? && LocalName(s).value.Identifier?
    requires ImportChildren(tail, parent, decl).Success? && ImportChildren(tail, parent, decl).value == []
    ensures ImportChildren(ss + tail, parent, decl).Success?
    ensures var gs := ImportChildren(ss + tail, parent, decl).value;
      && |gs| == |ss|
      && forall i :: 0 <= i < |ss| ==>
           gs[i] == ImportGroup([Target(HandleOf(LocalName(ss[i]).value), true)], ImportTemplate(ss[i], decl))
    decreases |ss|
  {
    if ss == [] {
      assert ss + tail == tail;
    } else {
      var cs := ss + tail;
      assert cs[0] == ss[0] && cs[1..] == ss[1..] + tail;
      assert ss[0] in ss;
      SimpleSpecifier(ss[0], LocalName(ss[0]).value, decl);
      assert forall s :: s in ss[1..] ==> s in ss;
      assert forall c :: c in ss[1..] + tail ==> c in cs;
      SpecifiersThenSource(ss[1..], tail, parent, decl);
    }
  }
}
