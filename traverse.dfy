/**
 * The tree walker of the legacy engine (`traverse` in escope.js): an explicit
 * work list of nodes and markers plus a leave list of the nodes being left.
 * The walk is generic in the state the visitor threads through its `enter`
 * and `leave` callbacks; it is proved equal to the recursive pre/post-order
 * walk `WalkNode`.
 */
module Traversal {
  import opened Base
  import opened Ast

  /** What a callback returns: nothing, `VisitorOption.Skip` or `VisitorOption.Break`. */
  datatype Control = Continue | Skip | Break

  /** How a walk ended: it ran out of work, a callback said Break, or a node had no visitor keys. */
  datatype Halt = Finished | Broken | Crashed

  /**
   * A visitor: `enter` and `leave` receive the node and its parent (null for
   * the root) and return the new state and a control value.  A visitor
   * without a callback is one whose callback returns the state and Continue.
   */
  datatype Visitor<!S> = Visitor(enter: (S, Node, Option<Node>) -> (S, Control),
                                leave: (S, Node, Option<Node>) -> (S, Control))

  /** The node types escope.js has `VisitorKeys` for (the ES5 syntax). */
  predicate Keyed(n: Node)
  {
    n.AssignmentExpression? || n.ArrayExpression? || n.BlockStatement? || n.BinaryExpression? ||
    n.BreakStatement? || n.CallExpression? || n.CatchClause? || n.ConditionalExpression? ||
    n.ContinueStatement? || n.DoWhileStatement? || n.DebuggerStatement? || n.EmptyStatement? ||
    n.ExpressionStatement? || n.ForStatement? || n.ForInStatement? || n.FunctionDeclaration? ||
    n.FunctionExpression? || n.Identifier? || n.IfStatement? || n.Literal? || n.LabeledStatement? ||
    n.LogicalExpression? || n.MemberExpression? || n.NewExpression? || n.ObjectExpression? ||
    n.Program? || n.Property? || n.ReturnStatement? || n.SequenceExpression? || n.SwitchStatement? ||
    n.SwitchCase? || n.ThisExpression? || n.ThrowStatement? || n.TryStatement? ||
    n.UnaryExpression? || n.UpdateExpression? || n.VariableDeclaration? || n.VariableDeclarator? ||
    n.WhileStatement? || n.WithStatement?
  }

  /**
   * `VisitorKeys[node.type]`, as the slots they name.  For every keyed type the
   * escope.js keys are the first keys of the ES6 visitor keys, in the same
   * order, so the slots are the node's `Fields`.
   */
  function Keys(n: Node): (r: Option<seq<Field>>)
    ensures r.Some? <==> Keyed(n)
    ensures r.Some? ==> r.value == Fields(n)
  {
    if Keyed(n) then Some(Fields(n)) else None
  }

  // ---------------------------------------------------------------------
  // The recursive walk

  /** Every node of `cs` is a proper part of `owner`, which makes walking them terminate. */
  ghost predicate Under(cs: seq<Node>, owner: Node)
  {
    forall i :: 0 <= i < |cs| ==> cs[i] < owner
  }

  lemma ChildrenUnder(n: Node)
    ensures Under(Children(n), n)
  {
    var cs := Children(n);
    forall i | 0 <= i < |cs| ensures cs[i] < n {
      assert cs[i] in cs;
    }
  }

  /**
   * The walk of the subtree at `n` whose parent is `parent`: `enter` on `n`;
   * unless it said Skip, the children in order; then `leave` on `n`.  Break
   * from either callback, or from any callback below, ends the walk at once;
   * so does a node without visitor keys whose children are due.
   */
  function WalkNode<S>(v: Visitor<S>, s: S, n: Node, parent: Option<Node>): (S, Halt)
    decreases n, |Children(n)| + 1
  {
    ChildrenUnder(n);
    var (s1, c) := v.enter(s, n, parent);
    if c == Break then (s1, Broken)
    else
      var (s2, h) := if c == Skip then (s1, Finished)
                     else if !Keyed(n) then (s1, Crashed)
                     else WalkSeq(v, s1, Children(n), n);
      if h != Finished then (s2, h)
      else
        var (s3, c3) := v.leave(s2, n, parent);
        (s3, if c3 == Break then Broken else Finished)
  }

  /** The walks of the children `cs` of `owner`, left to right, until one halts. */
  function WalkSeq<S>(v: Visitor<S>, s: S, cs: seq<Node>, owner: Node): (S, Halt)
    requires Under(cs, owner)
    decreases owner, |cs|
  {
    if cs == [] then (s, Finished)
    else
      var (s1, h) := WalkNode(v, s, cs[0], Some(owner));
      if h != Finished then (s1, h) else WalkSeq(v, s1, cs[1..], owner)
  }

  // ---------------------------------------------------------------------
  // The work-list machine

  /** An entry of the work list: a node still to be entered, or the marker of a node to leave. */
  datatype Item = Visit(node: Node) | Marker

  /** The top of the leave list; the leave list starts with null, which the model leaves implicit. */
  function Top(ll: seq<Node>): Option<Node>
  {
    if ll == [] then None else Some(ll[|ll| - 1])
  }

  /** The work-list entries for children `cs`, pushed last child first so that the first is on top. */
  function Pushes(cs: seq<Node>): (r: seq<Item>)
    ensures |r| == |cs|
  {
    if cs == [] then [] else Pushes(cs[1..]) + [Visit(cs[0])]
  }

  lemma {:induction false} PushesAppend(a: seq<Node>, b: seq<Node>)
    ensures Pushes(a + b) == Pushes(b) + Pushes(a)
    decreases |a|
  {
    if a != [] {
      assert (a + b)[1..] == a[1..] + b;
      PushesAppend(a[1..], b);
    } else {
      assert a + b == b;
    }
  }

  /** The number of nodes in the subtree at `n`. */
  function Size(n: Node): nat
    decreases n, |Children(n)| + 1
  {
    ChildrenUnder(n);
    1 + SizeOf(Children(n), n)
  }

  function SizeOf(cs: seq<Node>, owner: Node): nat
    requires Under(cs, owner)
    decreases owner, |cs|
  {
    if cs == [] then 0 else Size(cs[0]) + SizeOf(cs[1..], owner)
  }

  /** The work left in a work list: two steps per node below an entry, one per marker. */
  function Weight(wl: seq<Item>): nat
  {
    if wl == [] then 0
    else (if wl[0].Marker? then 1 else 2 * Size(wl[0].node)) + Weight(wl[1..])
  }

  lemma {:induction false} WeightAppend(a: seq<Item>, b: seq<Item>)
    ensures Weight(a + b) == Weight(a) + Weight(b)
    decreases |a|
  {
    if a != [] {
      assert (a + b)[1..] == a[1..] + b;
      WeightAppend(a[1..], b);
    } else {
      assert a + b == b;
    }
  }

  lemma {:induction false} WeightPushes(cs: seq<Node>, owner: Node)
    requires Under(cs, owner)
    ensures Weight(Pushes(cs)) == 2 * SizeOf(cs, owner)
    decreases |cs|
  {
    if cs != [] {
      WeightPushes(cs[1..], owner);
      WeightAppend(Pushes(cs[1..]), [Visit(cs[0])]);
      assert Weight([Visit(cs[0])]) == 2 * Size(cs[0]);
    }
  }

  /** Entering `n` replaces its entry by a marker and its children, which is less work. */
  lemma EnterLessWork(rest: seq<Item>, n: Node)
    ensures Weight(rest + [Marker]) < Weight(rest + [Visit(n)])
    ensures Weight(rest + [Marker] + Pushes(Children(n))) < Weight(rest + [Visit(n)])
  {
    ChildrenUnder(n);
    WeightAppend(rest + [Marker], Pushes(Children(n)));
    WeightAppend(rest, [Marker]);
    WeightAppend(rest, [Visit(n)]);
    assert Weight([Marker]) == 1;
    assert Weight([Visit(n)]) == 2 * Size(n);
    WeightPushes(Children(n), n);
  }

  /**
   * The loop of `traverse` from work list `wl` and leave list `ll`, written as
   * a function: pop the top entry; a marker pops the leave list and calls
   * `leave`, a node calls `enter`, pushes its marker, and unless told to Skip
   * pushes its children.
   */
  ghost function Run<S>(v: Visitor<S>, s: S, wl: seq<Item>, ll: seq<Node>): (S, Halt)
    decreases Weight(wl)
  {
    if wl == [] then (s, Finished)
    else
      var rest := wl[..|wl| - 1];
      WeightAppend(rest, [wl[|wl| - 1]]);
      assert rest + [wl[|wl| - 1]] == wl;
      match wl[|wl| - 1]
      case Marker =>
        if ll == [] then (s, Finished)
        else
          var (s1, c) := v.leave(s, ll[|ll| - 1], Top(ll[..|ll| - 1]));
          if c == Break then (s1, Broken) else Run(v, s1, rest, ll[..|ll| - 1])
      case Visit(n) =>
        var (s1, c) := v.enter(s, n, Top(ll));
        EnterLessWork(rest, n);
        if c == Break then (s1, Broken)
        else if c == Skip then Run(v, s1, rest + [Marker], ll + [n])
        else if !Keyed(n) then (s1, Crashed)
        else Run(v, s1, rest + [Marker] + Pushes(Children(n)), ll + [n])
  }

  /** A walk that ended normally continues with what is below it on the work list. */
  ghost function Then<S>(v: Visitor<S>, w: (S, Halt), rest: seq<Item>, ll: seq<Node>): (S, Halt)
  {
    if w.1 != Finished then w else Run(v, w.0, rest, ll)
  }

  /** An entry for `n` on the work list runs the recursive walk of `n`, then the rest. */
  lemma {:induction false} RunNode<S>(v: Visitor<S>, s: S, rest: seq<Item>, ll: seq<Node>, n: Node)
    ensures Run(v, s, rest + [Visit(n)], ll) == Then(v, WalkNode(v, s, n, Top(ll)), rest, ll)
    decreases n, |Children(n)| + 1
  {
    var wl := rest + [Visit(n)];
    assert wl[..|wl| - 1] == rest;
    var (s1, c) := v.enter(s, n, Top(ll));
    var ll' := ll + [n];
    assert ll'[..|ll'| - 1] == ll;
    if c != Break && c != Skip && Keyed(n) {
      var cs := Children(n);
      ChildrenUnder(n);
      RunSeq(v, s1, rest + [Marker], ll', cs, n);
      var (s2, h) := WalkSeq(v, s1, cs, n);
      if h == Finished {
        var wm := rest + [Marker];
        assert wm[..|wm| - 1] == rest;
      }
    } else if c == Skip {
      var wm := rest + [Marker];
      assert wm[..|wm| - 1] == rest;
    }
  }

  /** Entries for the children `cs` of the top of the leave list run their walks in order. */
  lemma {:induction false} RunSeq<S>(v: Visitor<S>, s: S, rest: seq<Item>, ll: seq<Node>, cs: seq<Node>, owner: Node)
    requires Under(cs, owner)
    requires Top(ll) == Some(owner)
    ensures Run(v, s, rest + Pushes(cs), ll) == Then(v, WalkSeq(v, s, cs, owner), rest, ll)
    decreases owner, |cs|
  {
    if cs == [] {
      assert rest + Pushes(cs) == rest;
    } else {
      var tail := rest + Pushes(cs[1..]);
      assert rest + Pushes(cs) == tail + [Visit(cs[0])];
      RunNode(v, s, tail, ll, cs[0]);
      var (s1, h) := WalkNode(v, s, cs[0], Some(owner));
      if h == Finished {
        RunSeq(v, s1, rest, ll, cs[1..], owner);
      }
    }
  }

  /** The machine started on the root alone is the recursive walk of the root. */
  lemma RunRoot<S>(v: Visitor<S>, s: S, top: Node)
    ensures Run(v, s, [Visit(top)], []) == WalkNode(v, s, top, None)
  {
    RunNode(v, s, [], [], top);
    assert [] + [Visit(top)] == [Visit(top)];
  }

  // ---------------------------------------------------------------------
  // traverse

  lemma {:induction false} FlattenSplit(fs: seq<Field>, k: nat)
    requires k < |fs|
    ensures Flatten(fs[k..]) == FieldNodes(fs[k]) + Flatten(fs[k + 1..])
  {
    assert fs[k..][1..] == fs[k + 1..];
  }

  lemma {:induction false} PresentSplit(xs: seq<Option<Node>>, k: nat)
    requires k < |xs|
    ensures Present(xs[k..]) == Opt(xs[k]) + Present(xs[k + 1..])
  {
    assert xs[k..][1..] == xs[k + 1..];
  }

  /** One step of the machine on a marker (the leave list is never empty there in a walk from a root). */
  lemma RunMarker<S>(v: Visitor<S>, s: S, rest: seq<Item>, ll: seq<Node>)
    ensures ll == [] ==> Run(v, s, rest + [Marker], ll) == (s, Finished)
    ensures ll != [] ==>
      var ret := v.leave(s, ll[|ll| - 1], Top(ll[..|ll| - 1]));
      Run(v, s, rest + [Marker], ll) == (if ret.1 == Break then (ret.0, Broken) else Run(v, ret.0, rest, ll[..|ll| - 1]))
  {
    var wl := rest + [Marker];
    assert wl[..|wl| - 1] == rest;
  }

  /** One step of the machine on a node entry. */
  lemma RunVisit<S>(v: Visitor<S>, s: S, rest: seq<Item>, ll: seq<Node>, n: Node)
    ensures
      var ret := v.enter(s, n, Top(ll));
      Run(v, s, rest + [Visit(n)], ll) ==
        if ret.1 == Break then (ret.0, Broken)
        else if ret.1 == Skip then Run(v, ret.0, rest + [Marker], ll + [n])
        else if !Keyed(n) then (ret.0, Crashed)
        else Run(v, ret.0, rest + [Marker] + Pushes(Children(n)), ll + [n])
  {
    var wl := rest + [Visit(n)];
    assert wl[..|wl| - 1] == rest;
  }

  /** The inner loop of `traverse` on an array slot: elements pushed last to first. */
  method PushArray(worklist: seq<Item>, xs: seq<Node>) returns (r: seq<Item>)
    ensures r == worklist + Pushes(xs)
  {
    r := worklist;
    var current2 := |xs|;
    while current2 > 0
      invariant 0 <= current2 <= |xs|
      invariant r == worklist + Pushes(xs[current2..])
    {
      current2 := current2 - 1;
      assert xs[current2..] == [xs[current2]] + xs[current2 + 1..];
      PushesAppend([xs[current2]], xs[current2 + 1..]);
      r := r + [Visit(xs[current2])];
    }
    assert xs[0..] == xs;
  }

  /** The inner loop on an array with holes: the holes are not pushed. */
  method PushSparse(worklist: seq<Item>, xs: seq<Option<Node>>) returns (r: seq<Item>)
    ensures r == worklist + Pushes(Present(xs))
  {
    r := worklist;
    var current2 := |xs|;
    while current2 > 0
      invariant 0 <= current2 <= |xs|
      invariant r == worklist + Pushes(Present(xs[current2..]))
    {
      current2 := current2 - 1;
      PresentSplit(xs, current2);
      PushesAppend(Opt(xs[current2]), Present(xs[current2 + 1..]));
      if xs[current2].Some? {
        r := r + [Visit(xs[current2].value)];
      }
      assert Pushes(Opt(xs[current2])) == (if xs[current2].Some? then [Visit(xs[current2].value)] else []);
    }
    assert xs[0..] == xs;
  }

  /** One visitor-key slot: a single non-null child is pushed, an array's elements last to first. */
  method PushField(worklist: seq<Item>, candidate: Field) returns (r: seq<Item>)
    ensures r == worklist + Pushes(FieldNodes(candidate))
  {
    match candidate
    case One(o) =>
      r := worklist;
      if o.Some? {
        r := r + [Visit(o.value)];
      }
      assert Pushes(Opt(o)) == (if o.Some? then [Visit(o.value)] else []);
    case Many(xs) =>
      r := PushArray(worklist, xs);
    case Sparse(xs) =>
      r := PushSparse(worklist, xs);
  }

  /**
   * The outer loop over the visitor keys, last key first.  The children end
   * up on the work list first child on top.
   */
  method PushCandidates(worklist: seq<Item>, fields: seq<Field>) returns (r: seq<Item>)
    ensures r == worklist + Pushes(Flatten(fields))
  {
    r := worklist;
    var current := |fields|;
    while current > 0
      invariant 0 <= current <= |fields|
      invariant r == worklist + Pushes(Flatten(fields[current..]))
    {
      current := current - 1;
      FlattenSplit(fields, current);
      PushesAppend(FieldNodes(fields[current]), Flatten(fields[current + 1..]));
      r := PushField(r, fields[current]);
    }
    assert fields[0..] == fields;
  }

  /**
   * `traverse(top, visitor)`: the iterative walk, which ends in the state and
   * the way the recursive walk of `top` does.
   */
  method Traverse<S>(top: Node, v: Visitor<S>, s0: S) returns (s: S, halt: Halt)
    ensures (s, halt) == WalkNode(v, s0, top, None)
  {
    var worklist := [Visit(top)];
    var leavelist: seq<Node> := [];
    s := s0;
    RunRoot(v, s0, top);
    while worklist != []
      invariant Run(v, s, worklist, leavelist) == WalkNode(v, s0, top, None)
      decreases Weight(worklist)
    {
      var item := worklist[|worklist| - 1];
      var rest := worklist[..|worklist| - 1];
      assert rest + [item] == worklist;
      WeightAppend(rest, [item]);
      worklist := rest;
      if item.Marker? {
        RunMarker(v, s, rest, leavelist);
        if leavelist == [] {
          // the leave list's initial null popped: a machine the root never reaches
          return s, Finished;
        }
        var node := leavelist[|leavelist| - 1];
        leavelist := leavelist[..|leavelist| - 1];
        var ret := v.leave(s, node, Top(leavelist));
        s := ret.0;
        if ret.1 == Break {
          return s, Broken;
        }
      } else {
        var node := item.node;
        RunVisit(v, s, rest, leavelist, node);
        var ret := v.enter(s, node, Top(leavelist));
        s := ret.0;
        if ret.1 == Break {
          return s, Broken;
        }
        EnterLessWork(rest, node);
        worklist := worklist + [Marker];
        leavelist := leavelist + [node];
        if ret.1 != Skip {
          var candidates := Keys(node);
          if candidates.None? {
            return s, Crashed;
          }
          worklist := PushCandidates(worklist, candidates.value);
        }
      }
    }
    halt := Finished;
  }

  // ---------------------------------------------------------------------
  // Properties of the walk

  /** The events a recording visitor sees. */
  datatype Event = Entered(id: NodeId) | Left(id: NodeId)

  /** A visitor that records every call and never skips or breaks. */
  function Recorder(): Visitor<seq<Event>>
  {
    Visitor((s: seq<Event>, n: Node, p: Option<Node>) => (s + [Entered(n.nid)], Continue),
            (s: seq<Event>, n: Node, p: Option<Node>) => (s + [Left(n.nid)], Continue))
  }

  /** Every node of the subtree has visitor keys. */
  predicate AllKeyed(n: Node)
    decreases n
  {
    ChildrenUnder(n);
    Keyed(n) && forall i :: 0 <= i < |Children(n)| ==> AllKeyed(Children(n)[i])
  }

  /** Pre-order enters, post-order leaves: the events of a walk of `n`. */
  function Events(n: Node): seq<Event>
    decreases n, |Children(n)| + 1
  {
    ChildrenUnder(n);
    [Entered(n.nid)] + EventsOf(Children(n), n) + [Left(n.nid)]
  }

  function EventsOf(cs: seq<Node>, owner: Node): seq<Event>
    requires Under(cs, owner)
    decreases owner, |cs|
  {
    if cs == [] then [] else Events(cs[0]) + EventsOf(cs[1..], owner)
  }

  /** The recorder's callbacks append one event and continue. */
  lemma RecorderSteps(s: seq<Event>, n: Node, parent: Option<Node>)
    ensures Recorder().enter(s, n, parent) == (s + [Entered(n.nid)], Continue)
    ensures Recorder().leave(s, n, parent) == (s + [Left(n.nid)], Continue)
  {
  }

  /** One unfolding of WalkNode when both callbacks continue and the children finish. */
  lemma WalkNodeFinishes<S>(v: Visitor<S>, s: S, n: Node, parent: Option<Node>, s2: S)
    requires v.enter(s, n, parent).1 == Continue && Keyed(n)
    requires Under(Children(n), n)
    requires WalkSeq(v, v.enter(s, n, parent).0, Children(n), n) == (s2, Finished)
    requires v.leave(s2, n, parent).1 == Continue
    ensures WalkNode(v, s, n, parent) == (v.leave(s2, n, parent).0, Finished)
  {
  }

  /** One unfolding of WalkSeq when its first walk finishes. */
  lemma WalkSeqFirst<S>(v: Visitor<S>, s: S, cs: seq<Node>, owner: Node, s1: S)
    requires Under(cs, owner) && cs != []
    requires WalkNode(v, s, cs[0], Some(owner)) == (s1, Finished)
    ensures Under(cs[1..], owner)
    ensures WalkSeq(v, s, cs, owner) == WalkSeq(v, s1, cs[1..], owner)
  {
  }

  /** One unfolding of EventsOf. */
  lemma EventsOfFirst(cs: seq<Node>, owner: Node)
    requires Under(cs, owner) && cs != []
    ensures Under(cs[1..], owner)
    ensures EventsOf(cs, owner) == Events(cs[0]) + EventsOf(cs[1..], owner)
  {
  }

  lemma AppendAssoc(a: seq<Event>, b: seq<Event>, c: seq<Event>)
    ensures (a + b) + c == a + (b + c)
  {
  }

  lemma AppendAssoc3(a: seq<Event>, b: seq<Event>, c: seq<Event>, d: seq<Event>)
    ensures ((a + b) + c) + d == a + ((b + c) + d)
  {
  }

  /** One unfolding of AllKeyed. */
  lemma AllKeyedChildren(n: Node)
    requires AllKeyed(n)
    ensures Keyed(n) && forall i :: 0 <= i < |Children(n)| ==> AllKeyed(Children(n)[i])
  {
  }

  /**
   * On a tree of keyed nodes the walk enters each node before everything
   * below it and leaves it after everything below it, children left to right.
   */
  lemma {:induction false} WalkOrder(s: seq<Event>, n: Node, parent: Option<Node>)
    requires AllKeyed(n)
    ensures WalkNode(Recorder(), s, n, parent) == (s + Events(n), Finished)
    decreases n, |Children(n)| + 1
  {
    var v := Recorder();
    var s1 := s + [Entered(n.nid)];
    RecorderSteps(s, n, parent);
    ChildrenUnder(n);
    AllKeyedChildren(n);
    var cs := Children(n);
    WalkSeqOrder(s1, cs, n);
    var s2 := s1 + EventsOf(cs, n);
    RecorderSteps(s2, n, parent);
    WalkNodeFinishes(v, s, n, parent, s2);
    assert Events(n) == [Entered(n.nid)] + EventsOf(cs, n) + [Left(n.nid)];
    AppendAssoc3(s, [Entered(n.nid)], EventsOf(cs, n), [Left(n.nid)]);
  }

  lemma {:induction false} WalkSeqOrder(s: seq<Event>, cs: seq<Node>, owner: Node)
    requires Under(cs, owner) && forall i :: 0 <= i < |cs| ==> AllKeyed(cs[i])
    ensures WalkSeq(Recorder(), s, cs, owner) == (s + EventsOf(cs, owner), Finished)
    decreases owner, |cs|
  {
    if cs != [] {
      WalkOrder(s, cs[0], Some(owner));
      var s1 := s + Events(cs[0]);
      WalkSeqFirst(Recorder(), s, cs, owner, s1);
      assert forall i :: 0 <= i < |cs[1..]| ==> AllKeyed(cs[1..][i]) by {
        forall i | 0 <= i < |cs[1..]| ensures AllKeyed(cs[1..][i]) {
          assert cs[1..][i] == cs[i + 1];
        }
      }
      WalkSeqOrder(s1, cs[1..], owner);
      EventsOfFirst(cs, owner);
      AppendAssoc(s, Events(cs[0]), EventsOf(cs[1..], owner));
    } else {
      assert s + EventsOf(cs, owner) == s;
    }
  }

  /** A node whose `enter` says Skip is left straight after it is entered; its children are not walked. */
  lemma SkipLeaves<S>(v: Visitor<S>, s: S, n: Node, parent: Option<Node>)
    requires v.enter(s, n, parent).1 == Skip
    ensures WalkNode(v, s, n, parent).0 == v.leave(v.enter(s, n, parent).0, n, parent).0
  {
  }

  /** Break from `enter` stops the walk with the state `enter` returned: nothing else is called. */
  lemma BreakStops<S>(v: Visitor<S>, s: S, n: Node, parent: Option<Node>)
    requires v.enter(s, n, parent).1 == Break
    ensures WalkNode(v, s, n, parent) == (v.enter(s, n, parent).0, Broken)
  {
  }

  /** A child that halts the walk halts its siblings' walk too: the later siblings are not entered. */
  lemma {:induction false} HaltPropagates<S>(v: Visitor<S>, s: S, cs: seq<Node>, owner: Node)
    requires Under(cs, owner)
    requires cs != [] && WalkNode(v, s, cs[0], Some(owner)).1 != Finished
    ensures WalkSeq(v, s, cs, owner) == WalkNode(v, s, cs[0], Some(owner))
  {
  }
}
