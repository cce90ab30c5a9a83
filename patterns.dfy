/**
 * `traverseIdentifierInPattern` (lib/referencer.js): the identifiers a
 * binding or assignment target introduces, in the order the callback sees
 * them, each with its `toplevel` flag.  The source walks the whole pattern
 * tree with estraverse and reports, on entering a node, the root Identifier,
 * the Identifier argument of a SpreadElement, the shorthand key or Identifier
 * value of each ObjectPattern property, and the Identifier elements of an
 * ArrayPattern.
 */
module Patterns {
  import opened Base
  import opened Ast
  import opened Scopes

  /** One callback call: the node passed and whether it is the pattern itself. */
  datatype Hit = Hit(id: Node, toplevel: bool)

  /** The ArrayPattern case: the Identifier elements, holes skipped. */
  function ElementHits(es: seq<Option<Node>>): (r: seq<Hit>)
    ensures forall h :: h in r ==> !h.toplevel && h.id.Identifier? && Some(h.id) in es
    ensures |r| <= |es|
  {
    if es == [] then []
    else (if es[0].Some? && es[0].value.Identifier? then [Hit(es[0].value, false)] else []) + ElementHits(es[1..])
  }

  /**
   * The ObjectPattern case: a shorthand property reports its key, any other
   * property its value when that is an Identifier.  An entry that is not a
   * Property has no `value` to inspect, and the source fails on it.
   */
  function PropertyHits(ps: seq<Node>): (r: Result<seq<Hit>, Error>)
    ensures r.Failure? <==> exists i :: 0 <= i < |ps| && !ps[i].Property?
    ensures r.Success? ==> forall h :: h in r.value ==>
      !h.toplevel && exists i :: 0 <= i < |ps| && (h.id == ps[i].key || h.id == ps[i].value)
  {
    if ps == [] then Success([])
    else if !ps[0].Property? then Failure(MalformedNode)
    else
      var p := ps[0];
      var own := if p.shorthand then [Hit(p.key, false)] else if p.value.Identifier? then [Hit(p.value, false)] else [];
      var rest :- PropertyHits(ps[1..]);
      assert forall h :: h in rest ==> exists i :: 1 <= i < |ps| && (h.id == ps[i].key || h.id == ps[i].value) by {
        forall h | h in rest ensures exists i :: 1 <= i < |ps| && (h.id == ps[i].key || h.id == ps[i].value) {
          var j :| 0 <= j < |ps[1..]| && (h.id == ps[1..][j].key || h.id == ps[1..][j].value);
          assert ps[1..][j] == ps[j + 1];
        }
      }
      Success(own + rest)
  }

  /** What the `enter` callback reports on one node of the pattern tree. */
  function EnterHits(p: Node, isRoot: bool): (r: Result<seq<Hit>, Error>)
  {
    match p
    case Identifier(_, _) => Success(if isRoot then [Hit(p, true)] else [])
    case SpreadElement(_, a) => Success(if a.Identifier? then [Hit(a, false)] else [])
    case ObjectPattern(_, ps) => PropertyHits(ps)
    case ArrayPattern(_, es) => Success(ElementHits(es))
    case _ => Success([])
  }

  /** The walk: the node's own report, then its children's, in visitor-key order. */
  function PatternHits(p: Node, isRoot: bool): Result<seq<Hit>, Error>
    decreases p, |Children(p)| + 1
  {
    var own :- EnterHits(p, isRoot);
    var rest :- ChildrenHits(Children(p), p);
    Success(own + rest)
  }

  function ChildrenHits(cs: seq<Node>, parent: Node): Result<seq<Hit>, Error>
    requires forall c :: c in cs ==> c < parent
    decreases parent, |cs|
  {
    if cs == [] then Success([])
    else
      assert cs[0] in cs;
      var first :- PatternHits(cs[0], false);
      assert forall c :: c in cs[1..] ==> c in cs;
      var rest :- ChildrenHits(cs[1..], parent);
      Success(first + rest)
  }

  /**
   * `visitPattern(node, callback)`: the callback calls for the whole pattern.
   * The walk enters only a node that is present, so a missing pattern
   * calls nothing.  Only the pattern itself can be top-level.
   */
  function VisitPattern(p: Option<Node>): (r: Result<seq<Hit>, Error>)
    ensures p.None? ==> r == Success([])
    ensures r.Success? ==> forall h :: h in r.value && h.toplevel ==> p == Some(h.id) && h.id.Identifier?
  {
    if p.None? then Success([])
    else
      var r := PatternHits(p.value, true);
      if r.Success? then OnlyRootTopLevel(p.value, true); r else r
  }

  // ---------------------------------------------------------------------
  // Properties of the walk

  /** A pattern that is a plain Identifier is reported once, as top-level. */
  lemma IdentifierPattern(p: Node)
    requires p.Identifier?
    ensures PatternHits(p, true) == Success([Hit(p, true)])
  {
    NoChildren(p);
    assert [Hit(p, true)] + [] == [Hit(p, true)];
  }

  lemma NoChildren(p: Node)
    requires p.Identifier?
    ensures Children(p) == [] && ChildrenHits(Children(p), p) == Success([]) && Ids(p) == {p.nid}
  {
    assert Fields(p) == [];
    assert Flatten([]) == [];
  }

  /** Only the pattern itself, and only when it is an Identifier, is reported as top-level. */
  lemma {:induction false} OnlyRootTopLevel(p: Node, isRoot: bool)
    requires PatternHits(p, isRoot).Success?
    ensures forall h :: h in PatternHits(p, isRoot).value && h.toplevel ==> isRoot && h.id == p && p.Identifier?
    decreases p, |Children(p)| + 1
  {
    ChildrenNotTopLevel(Children(p), p);
  }

  lemma {:induction false} ChildrenNotTopLevel(cs: seq<Node>, parent: Node)
    requires forall c :: c in cs ==> c < parent
    requires ChildrenHits(cs, parent).Success?
    ensures forall h :: h in ChildrenHits(cs, parent).value ==> !h.toplevel
    decreases parent, |cs|
  {
    if cs != [] {
      assert cs[0] in cs;
      OnlyRootTopLevel(cs[0], false);
      assert forall c :: c in cs[1..] ==> c in cs;
      ChildrenNotTopLevel(cs[1..], parent);
    }
  }

  /** A nested Identifier reports nothing on its own: only its enclosing pattern's case reports it. */
  lemma InnerIdentifierSilent(p: Node)
    requires p.Identifier?
    ensures PatternHits(p, false) == Success([])
  {
    NoChildren(p);
    assert EnterHits(p, false) == Success([]);
    var none: seq<Hit> := []; assert none + none == none;
  }

  /**
   * A flat ArrayPattern (`[a, , b]`): exactly its Identifier elements, left to
   * right, none top-level, holes skipped.
   */
  lemma FlatArrayPattern(p: Node)
    requires p.ArrayPattern?
    requires forall i :: 0 <= i < |p.elements| ==> p.elements[i].None? || p.elements[i].value.Identifier?
    ensures PatternHits(p, true) == Success(ElementHits(p.elements))
  {
    ArrayChildren(p);
    FlatElementsSilent(p.elements, p);
    assert EnterHits(p, true) == Success(ElementHits(p.elements));
    assert ElementHits(p.elements) + [] == ElementHits(p.elements);
  }

  lemma ArrayChildren(p: Node)
    requires p.ArrayPattern?
    ensures Children(p) == Present(p.elements)
  {
    assert Fields(p) == [Sparse(p.elements)];
    assert Flatten(Fields(p)) == FieldNodes(Sparse(p.elements)) + Flatten([]);
  }

  lemma {:induction false} FlatElementsSilent(es: seq<Option<Node>>, parent: Node)
    requires forall i :: 0 <= i < |es| ==> es[i].None? || es[i].value.Identifier?
    requires forall c :: c in Present(es) ==> c < parent
    ensures ChildrenHits(Present(es), parent) == Success([])
    decreases |es|
  {
    if es != [] {
      assert Present(es) == Opt(es[0]) + Present(es[1..]);
      assert forall i :: 0 <= i < |es[1..]| ==> es[1..][i] == es[i + 1];
      FlatElementsSilent(es[1..], parent);
      if es[0].Some? {
        var cs := Present(es);
        assert cs[0] == es[0].value;
        InnerIdentifierSilent(es[0].value);
        assert cs[1..] == Present(es[1..]);
        assert PatternHits(cs[0], false) == Success([]);
        assert ChildrenHits(cs[1..], parent) == Success([]);
        var none: seq<Hit> := []; assert none + none == none;
      } else {
        assert Opt(es[0]) == [];
        assert Present(es) == Present(es[1..]);
      }
    }
  }

  /** Every reported node lies inside the pattern. */
  lemma {:induction false} HitsInside(p: Node, isRoot: bool)
    requires PatternHits(p, isRoot).Success?
    ensures forall h :: h in PatternHits(p, isRoot).value ==> h.id.nid in Ids(p)
    decreases p, |Children(p)| + 1
  {
    var own := EnterHits(p, isRoot).value;
    forall h | h in own ensures h.id.nid in Ids(p) {
      OwnHitInside(p, isRoot, h);
    }
    ChildrenHitsInside(Children(p), p);
  }

  lemma OwnHitInside(p: Node, isRoot: bool, h: Hit)
    requires EnterHits(p, isRoot).Success? && h in EnterHits(p, isRoot).value
    ensures h.id.nid in Ids(p)
  {
    if p.SpreadElement? {
      SpreadHitInside(p);
    } else if p.ObjectPattern? {
      var i :| 0 <= i < |p.properties| && (h.id == p.properties[i].key || h.id == p.properties[i].value);
      PropertyHitInside(p, i, h.id);
    } else if p.ArrayPattern? {
      ArrayChildren(p);
      PresentHas(p.elements, h.id);
      ChildIds(p, h.id);
    }
  }

  lemma SpreadHitInside(p: Node)
    requires p.SpreadElement?
    ensures p.argument.nid in Ids(p)
  {
    assert Fields(p) == [One(Some(p.argument))];
    assert Flatten(Fields(p)) == FieldNodes(One(Some(p.argument))) + Flatten([]);
    assert p.argument in Children(p);
    ChildIds(p, p.argument);
  }

  lemma PropertyHitInside(p: Node, i: nat, x: Node)
    requires p.ObjectPattern? && i < |p.properties| && p.properties[i].Property?
    requires x == p.properties[i].key || x == p.properties[i].value
    ensures x.nid in Ids(p)
  {
    var q := p.properties[i];
    assert Fields(p) == [Many(p.properties)];
    assert Flatten(Fields(p)) == FieldNodes(Many(p.properties)) + Flatten([]);
    assert q in Children(p);
    PropertyChildren(q);
    ChildIds(q, x);
    ChildIds(p, q);
  }

  lemma PropertyChildren(q: Node)
    requires q.Property?
    ensures q.key in Children(q) && q.value in Children(q)
  {
    assert Fields(q) == [One(Some(q.key)), One(Some(q.value))];
    assert Flatten(Fields(q)) == FieldNodes(One(Some(q.key))) + Flatten(Fields(q)[1..]);
    assert Flatten(Fields(q)[1..]) == FieldNodes(One(Some(q.value))) + Flatten([]);
  }

  lemma {:induction false} PresentHas(es: seq<Option<Node>>, x: Node)
    requires Some(x) in es
    ensures x in Present(es)
    decreases |es|
  {
    if es[0] != Some(x) {
      assert Some(x) in es[1..];
      PresentHas(es[1..], x);
    }
  }

  lemma {:induction false} ChildrenHitsInside(cs: seq<Node>, parent: Node)
    requires forall c :: c in cs ==> c < parent
    requires ChildrenHits(cs, parent).Success?
    requires forall c :: c in cs ==> c in Children(parent)
    ensures forall h :: h in ChildrenHits(cs, parent).value ==> h.id.nid in Ids(parent)
    decreases parent, |cs|
  {
    if cs != [] {
      assert cs[0] in cs;
      HitsInside(cs[0], false);
      ChildIds(parent, cs[0]);
      assert forall c :: c in cs[1..] ==> c in cs;
      ChildrenHitsInside(cs[1..], parent);
    }
  }
}
