/**
 * MessageSpecificationNode of lib/edifact/message_specification_node.rb: the specification
 * tree of a message, and the automaton step `next` that lists the leaf specifications a
 * segment may match next, given how often every node has been visited.
 *
 * The linked nodes become an arena: a sequence of nodes in preorder, in which a node names
 * its parent and its children by their indices. Each node also records `extent`, the index
 * just past its subtree, which is what the recursion of `next` and `next_sibling` decreases.
 * The visit counters are not part of the arena; they are a sequence beside it (an array in
 * the SegmentTree that owns them).
 */
module Grammar {
  import opened Common
  import Validation

  /** The nested hash a specification is written as: name, min, max, elements, segments. */
  datatype SpecDef = SpecDef(
    name: string,
    min: Option<int>,
    max: Option<int>,
    elements: Option<seq<Option<Validation.ElementSpecValue>>>,
    segments: SpecSegments)

  /** The :segments entry: absent for a segment specification, a list for a group. */
  datatype SpecSegments = NoSegments | Segments(list: seq<SpecDef>)

  datatype SpecNode = SpecNode(
    name: string,
    min: int,
    max: int,
    elements: seq<Option<Validation.ElementSpecValue>>,
    parent: Option<nat>,
    index: nat,
    level: nat,
    children: Option<seq<nat>>,
    extent: nat)

  type Arena = seq<SpecNode>

  function OrOne(x: Option<int>): int
  {
    if x.Some? then x.value else 1
  }

  // ---------------------------------------------------------------------------------------
  // Construction

  /** The two checks of the constructor, at one node. */
  predicate NodeChecks(spec: SpecDef, index: nat, hasParent: bool)
  {
    (index == 0 ==> OrOne(spec.min) == 1 && OrOne(spec.max) == 1) &&
    !(index == 0 && spec.segments.Segments? && hasParent)
  }

  /** Every node of the nested specification passes the constructor's checks. */
  predicate SpecOk(spec: SpecDef, index: nat, hasParent: bool)
    decreases spec, 1
  {
    NodeChecks(spec, index, hasParent) &&
    match spec.segments
    case NoSegments => true
    case Segments(specs) => ChildrenOk(specs, 0)
  }

  predicate ChildrenOk(specs: seq<SpecDef>, k: nat)
    decreases specs, 0
  {
    specs != [] ==> SpecOk(specs[0], k, true) && ChildrenOk(specs[1..], k + 1)
  }

  /**
   * MessageSpecificationNode.new(parent, index, spec), laying the subtree out from arena index
   * `at` on: the node, then the subtrees of its children in order. The checks of a node come
   * before its children are built, so the error raised is the first one in preorder.
   */
  function BuildNode(parent: Option<nat>, level: nat, index: nat, spec: SpecDef, at: nat)
    : (r: Result<Arena, Error>)
    ensures r.Success? <==> SpecOk(spec, index, parent.Some?)
    ensures r.Failure? ==> r.error == Error(SpecificationError, NoPosition)
    ensures r.Success? ==> 1 <= |r.value|
    decreases spec, 1
  {
    var min := OrOne(spec.min);
    var max := OrOne(spec.max);
    var elements := if spec.elements.Some? then spec.elements.value else [];
    if index == 0 && (min != 1 || max != 1) then Failure(Error(SpecificationError, NoPosition))
    else if index == 0 && spec.segments.Segments? && parent.Some? then Failure(Error(SpecificationError, NoPosition))
    else match spec.segments
      case NoSegments => Success([SpecNode(spec.name, min, max, elements, parent, index, level, None, at + 1)])
      case Segments(specs) =>
        match BuildChildren(at, level + 1, specs, 0, at + 1)
        case Failure(e) => Failure(e)
        case Success(built) =>
          Success([SpecNode(spec.name, min, max, elements, parent, index, level, Some(built.1), at + 1 + |built.0|)]
                  + built.0)
  }

  /** The subtrees of specs, the first of which has sibling index k, from arena index at on. */
  function BuildChildren(parent: nat, level: nat, specs: seq<SpecDef>, k: nat, at: nat)
    : (r: Result<(Arena, seq<nat>), Error>)
    ensures r.Success? <==> ChildrenOk(specs, k)
    ensures r.Failure? ==> r.error == Error(SpecificationError, NoPosition)
    ensures r.Success? ==> |r.value.1| == |specs| && (specs == [] <==> r.value.0 == [])
    decreases specs, 0
  {
    if specs == [] then Success(([], []))
    else
      match BuildNode(Some(parent), level, k, specs[0], at)
      case Failure(e) => Failure(e)
      case Success(first) =>
        match BuildChildren(parent, level, specs[1..], k + 1, at + |first|)
        case Failure(e) => Failure(e)
        case Success(rest) => Success((first + rest.0, [at] + rest.1))
  }

  /** The root: MessageSpecificationNode.new(nil, 0, spec). */
  function Build(spec: SpecDef): (r: Result<Arena, Error>)
    ensures r.Success? <==> SpecOk(spec, 0, false)
    ensures r.Failure? ==> r.error == Error(SpecificationError, NoPosition)
  {
    BuildNode(None, 0, 0, spec, 0)
  }

  // ---------------------------------------------------------------------------------------
  // The shape of an arena

  /** i is child number i of node p. */
  predicate ParentLink(a: Arena, p: nat, i: nat)
    requires p < |a| && i < |a|
  {
    a[p].children.Some? && a[i].index < |a[p].children.value| && a[p].children.value[a[i].index] == i
  }

  /** cs are the children of node i: consecutive subtrees filling i's subtree after i itself. */
  predicate ChildrenShape(a: Arena, i: nat, cs: seq<nat>)
    requires i < |a|
  {
    (cs == [] ==> a[i].extent == i + 1) &&
    (cs != [] ==> cs[0] == i + 1 && cs[|cs| - 1] < |a| && a[cs[|cs| - 1]].extent == a[i].extent) &&
    forall k :: 0 <= k < |cs| ==> ChildAt(a, i, cs, k)
  }

  predicate ChildAt(a: Arena, i: nat, cs: seq<nat>, k: nat)
    requires i < |a| && k < |cs|
  {
    i < cs[k] < |a| && a[cs[k]].parent == Some(i) && a[cs[k]].index == k &&
    a[cs[k]].level == a[i].level + 1 &&
    (k + 1 < |cs| ==> cs[k + 1] == a[cs[k]].extent)
  }

  predicate NodeShape(a: Arena, i: nat)
    requires i < |a|
  {
    i < a[i].extent <= |a| &&
    (a[i].parent.None? <==> i == 0) &&
    (i == 0 ==> a[i].level == 0 && a[i].index == 0 && a[i].extent == |a|) &&
    (a[i].parent.Some? ==> a[i].parent.value < i && ParentLink(a, a[i].parent.value, i)) &&
    (a[i].children.None? ==> a[i].extent == i + 1) &&
    (a[i].children.Some? ==> ChildrenShape(a, i, a[i].children.value))
  }

  /** The arena is a tree in preorder, rooted at 0. */
  predicate WF(a: Arena)
  {
    |a| > 0 && forall i :: 0 <= i < |a| ==> NodeShape(a, i)
  }

  /** What the constructor's checks guarantee of every node. */
  predicate Checked(a: Arena)
  {
    forall i :: 0 <= i < |a| && a[i].index == 0 ==>
      a[i].min == 1 && a[i].max == 1 && (a[i].parent.Some? ==> a[i].children.None?)
  }

  // ---------------------------------------------------------------------------------------
  // The automaton step

  /** Every child of i, and the whole of the child's subtree, lies inside i's subtree. */
  lemma {:induction false} ChildInSubtree(a: Arena, i: nat, k: nat)
    requires WF(a) && i < |a| && a[i].children.Some? && k < |a[i].children.value|
    ensures i < a[i].children.value[k] < |a| && a[i].children.value[k] < a[i].extent
    ensures a[a[i].children.value[k]].extent <= a[i].extent
    decreases |a[i].children.value| - k
  {
    var cs := a[i].children.value;
    assert NodeShape(a, i) && ChildAt(a, i, cs, k);
    assert NodeShape(a, cs[k]);
    if k + 1 < |cs| {
      ChildInSubtree(a, i, k + 1);
      assert ChildAt(a, i, cs, k + 1);
      assert NodeShape(a, cs[k + 1]);
    }
  }

  /** A node other than the root sits one level below its parent, inside the parent's subtree. */
  lemma InParent(a: Arena, j: nat)
    requires WF(a) && 0 < j < |a|
    ensures a[j].parent.Some? && a[j].parent.value < j
    ensures a[a[j].parent.value].children.Some?
    ensures a[j].level == a[a[j].parent.value].level + 1 && a[j].level > 0
    ensures j < a[a[j].parent.value].extent && a[j].extent <= a[a[j].parent.value].extent
  {
    assert NodeShape(a, j);
    var p := a[j].parent.value;
    assert NodeShape(a, p) && ParentLink(a, p, j);
    assert ChildAt(a, p, a[p].children.value, a[j].index);
    ChildInSubtree(a, p, a[j].index);
  }

  /** next: the leaves that may be visited next, in the order they are tried. */
  function Next(a: Arena, v: seq<nat>, i: nat): (r: seq<nat>)
    requires WF(a) && |v| == |a| && i < |a|
    ensures forall k :: 0 <= k < |r| ==> r[k] < |a|
    decreases |a| - i, 0, 0
  {
    var n := a[i];
    assert NodeShape(a, i);
    assert n.children.Some? && n.children.value != [] ==> ChildAt(a, i, n.children.value, 0);
    if v[i] < n.max then
      (match n.children
       case None => [i]
       case Some(cs) => if cs == [] then [] else Next(a, v, cs[0]))
      + (if v[i] >= n.min then NextSibling(a, v, i) else [])
    else NextSibling(a, v, i)
  }

  /** next_sibling: what may follow node i once it may be left. */
  function NextSibling(a: Arena, v: seq<nat>, i: nat): (r: seq<nat>)
    requires WF(a) && |v| == |a| && i < |a|
    ensures forall k :: 0 <= k < |r| ==> r[k] < |a|
    decreases |a| - a[i].extent, 1, a[i].level
  {
    match a[i].parent
    case None => []
    case Some(p) =>
      assert NodeShape(a, i) && NodeShape(a, p);
      var cs := a[p].children.value;
      assert ChildAt(a, p, cs, a[i].index);
      assert a[i].index + 1 < |cs| ==> ChildAt(a, p, cs, a[i].index + 1);
      if a[i].index + 1 < |cs| then Next(a, v, cs[a[i].index + 1])
      else if v[p] < a[p].max then [cs[0]] + NextSibling(a, v, p)
      else NextSibling(a, v, p)
  }

  // ---------------------------------------------------------------------------------------
  // What next promises

  /**
   * j may legally be matched now: it is a segment specification (a leaf) that has visits left,
   * or it is the first child of a group that has repetitions left, which starts a new one.
   */
  predicate Reachable(a: Arena, v: seq<nat>, j: nat)
    requires |v| == |a|
  {
    j < |a| && a[j].children.None? &&
    (v[j] < a[j].max ||
     (a[j].index == 0 && a[j].parent.Some? && a[j].parent.value < |a| &&
      v[a[j].parent.value] < a[a[j].parent.value].max))
  }

  predicate AllReachable(a: Arena, v: seq<nat>, r: seq<nat>)
    requires |v| == |a|
  {
    forall k :: 0 <= k < |r| ==> Reachable(a, v, r[k])
  }

  lemma AllReachableConcat(a: Arena, v: seq<nat>, x: seq<nat>, y: seq<nat>)
    requires |v| == |a| && AllReachable(a, v, x) && AllReachable(a, v, y)
    ensures AllReachable(a, v, x + y)
  {
    assert forall k :: 0 <= k < |x + y| ==> (x + y)[k] == if k < |x| then x[k] else y[k - |x|];
  }

  /** Given the constructor's checks, next lists only leaves that may legally be matched. */
  lemma {:induction false} NextReachable(a: Arena, v: seq<nat>, i: nat)
    requires WF(a) && Checked(a) && |v| == |a| && i < |a|
    ensures AllReachable(a, v, Next(a, v, i))
    decreases |a| - i, 0, 0
  {
    var n := a[i];
    assert NodeShape(a, i);
    assert n.children.Some? && n.children.value != [] ==> ChildAt(a, i, n.children.value, 0);
    if v[i] < n.max {
      var own := match n.children
        case None => [i]
        case Some(cs) => if cs == [] then [] else Next(a, v, cs[0]);
      if n.children.Some? && n.children.value != [] {
        NextReachable(a, v, n.children.value[0]);
      }
      assert AllReachable(a, v, own);
      var more := if v[i] >= n.min then NextSibling(a, v, i) else [];
      if v[i] >= n.min {
        NextSiblingReachable(a, v, i);
      }
      AllReachableConcat(a, v, own, more);
      assert Next(a, v, i) == own + more;
    } else {
      NextSiblingReachable(a, v, i);
    }
  }

  lemma {:induction false} NextSiblingReachable(a: Arena, v: seq<nat>, i: nat)
    requires WF(a) && Checked(a) && |v| == |a| && i < |a|
    ensures AllReachable(a, v, NextSibling(a, v, i))
    decreases |a| - a[i].extent, 1, a[i].level
  {
    match a[i].parent
    case None =>
    case Some(p) =>
      assert NodeShape(a, i) && NodeShape(a, p);
      var cs := a[p].children.value;
      assert ChildAt(a, p, cs, a[i].index);
      if a[i].index + 1 < |cs| {
        assert ChildAt(a, p, cs, a[i].index + 1);
        NextReachable(a, v, cs[a[i].index + 1]);
      } else {
        NextSiblingReachable(a, v, p);
        if v[p] < a[p].max {
          assert ChildAt(a, p, cs, 0);
          assert Reachable(a, v, cs[0]);
          AllReachableConcat(a, v, [cs[0]], NextSibling(a, v, p));
        }
      }
  }

  // ---------------------------------------------------------------------------------------
  // Ancestors
  //
  // In a preorder arena, x is an ancestor of y exactly when y lies inside x's subtree,
  // x < y < a[x].extent.

  /** A node inside x's subtree lies inside one of x's children's subtrees, from child k on. */
  lemma {:induction false} ChildCover(a: Arena, x: nat, k: nat, y: nat) returns (m: nat)
    requires WF(a) && x < |a| && a[x].children.Some? && k < |a[x].children.value|
    requires a[x].children.value[k] <= y < a[x].extent
    ensures k <= m < |a[x].children.value| && a[x].children.value[m] < |a|
    ensures a[x].children.value[m] <= y < a[a[x].children.value[m]].extent
    decreases |a[x].children.value| - k
  {
    var cs := a[x].children.value;
    assert NodeShape(a, x) && ChildAt(a, x, cs, k);
    if y < a[cs[k]].extent {
      m := k;
    } else {
      m := ChildCover(a, x, k + 1, y);
    }
  }

  /** A proper descendant of x lies in the subtree of one of x's children. */
  lemma InChild(a: Arena, x: nat, y: nat) returns (m: nat)
    requires WF(a) && x < y < |a| && y < a[x].extent
    ensures a[x].children.Some? && m < |a[x].children.value| && a[x].children.value[m] < |a|
    ensures a[x].children.value[m] <= y < a[a[x].children.value[m]].extent
  {
    assert NodeShape(a, x);
    m := ChildCover(a, x, 0, y);
  }

  /**
   * Any proper ancestor x of y is at or above y's parent, on a lower level, and y's subtree
   * lies inside x's.
   */
  lemma {:induction false} AncestorFacts(a: Arena, x: nat, y: nat)
    requires WF(a) && x < y < |a| && y < a[x].extent
    ensures a[y].parent.Some? && x <= a[y].parent.value
    ensures a[x].level < a[y].level && a[y].extent <= a[x].extent
    ensures a[x].children.Some?
    decreases y - x
  {
    var m := InChild(a, x, y);
    var cs := a[x].children.value;
    assert NodeShape(a, x) && ChildAt(a, x, cs, m);
    ChildInSubtree(a, x, m);
    if cs[m] < y {
      AncestorFacts(a, cs[m], y);
    }
  }

  /** The ancestors of y from the root down: entry l is the one on level l. */
  function Chain(a: Arena, y: nat): (r: seq<nat>)
    requires WF(a) && y < |a|
    ensures |r| == a[y].level
    ensures forall e :: 0 <= e < |r| ==> r[e] < y && a[r[e]].level == e
    ensures forall e :: 0 < e < |r| ==> a[r[e]].parent == Some(r[e - 1])
    ensures r != [] ==> r[0] == 0 && a[y].parent == Some(r[|r| - 1])
    decreases y
  {
    assert NodeShape(a, y) && NodeShape(a, 0);
    if y == 0 then []
    else
      InParent(a, y);
      var p := a[y].parent.value;
      Chain(a, p) + [p]
  }

  /** The chain of an ancestor x of y is the start of y's chain, and x is the next entry. */
  lemma {:induction false} ChainPrefix(a: Arena, x: nat, y: nat)
    requires WF(a) && x <= y < |a| && y < a[x].extent
    ensures a[x].level <= a[y].level && (x < y ==> a[x].level < a[y].level)
    ensures Chain(a, y)[..a[x].level] == Chain(a, x)
    ensures x < y ==> Chain(a, y)[a[x].level] == x
    decreases y
  {
    if x < y {
      AncestorFacts(a, x, y);
      InParent(a, y);
      var p := a[y].parent.value;
      var cp := Chain(a, p);
      assert Chain(a, y) == cp + [p];
      if x < p {
        ChainPrefix(a, x, p);
        assert cp[..a[x].level] == Chain(a, x);
        assert (cp + [p])[..a[x].level] == cp[..a[x].level];
        assert (cp + [p])[a[x].level] == cp[a[x].level];
      } else {
        assert x == p;
        assert (cp + [p])[..a[x].level] == cp;
      }
    }
  }

  // ---------------------------------------------------------------------------------------
  // What next offers after a match
  //
  // After a match of leaf c, with nothing after c in preorder visited yet, next offers
  // three kinds of node j: a later child (or c itself) of a group that is open around c; the
  // first child of an open group that has repetitions left, which starts a new repetition;
  // or the first child of a group that has not been entered and whose parent is open.

  /** No node after c in preorder has been visited. */
  predicate Fresh(a: Arena, v: seq<nat>, c: nat)
    requires |v| == |a|
  {
    forall y :: c < y < |a| ==> v[y] == 0
  }

  predicate Kind(a: Arena, v: seq<nat>, c: nat, j: nat)
    requires |v| == |a| && j < |a|
  {
    a[j].parent.Some? && a[j].parent.value < |a| &&
    var p := a[j].parent.value;
    (a[j].index != 0 && p <= c < a[p].extent && c <= j) ||
    (a[j].index == 0 && p <= c < a[p].extent && v[p] < a[p].max) ||
    (a[j].index == 0 && c < p && a[p].parent.Some? && a[p].parent.value <= c &&
     c < a[a[p].parent.value].extent)
  }

  predicate AllKind(a: Arena, v: seq<nat>, c: nat, r: seq<nat>)
    requires |v| == |a| && forall k :: 0 <= k < |r| ==> r[k] < |a|
  {
    forall k :: 0 <= k < |r| ==> Kind(a, v, c, r[k])
  }

  lemma AllKindConcat(a: Arena, v: seq<nat>, c: nat, x: seq<nat>, y: seq<nat>)
    requires |v| == |a| && (forall k :: 0 <= k < |x| ==> x[k] < |a|) && (forall k :: 0 <= k < |y| ==> y[k] < |a|)
    requires AllKind(a, v, c, x) && AllKind(a, v, c, y)
    ensures AllKind(a, v, c, x + y)
  {
    assert forall k :: 0 <= k < |x + y| ==> (x + y)[k] == if k < |x| then x[k] else y[k - |x|];
  }

  /** Preconditions shared by the classification lemmas: c is a matched leaf, fresh after it. */
  predicate AfterMatch(a: Arena, v: seq<nat>, c: nat)
  {
    WF(a) && Checked(a) && |v| == |a| && 0 < c < |a| && a[c].children.None? && Fresh(a, v, c)
  }

  /** next of an unvisited node q after c, whose parent is open around c. */
  lemma {:induction false} NextKinds(a: Arena, v: seq<nat>, c: nat, q: nat)
    requires AfterMatch(a, v, c) && c < q < |a|
    requires a[q].parent.Some? && a[q].parent.value <= c < a[a[q].parent.value].extent
    ensures AllKind(a, v, c, Next(a, v, q))
    decreases |a| - q, 0, 0
  {
    var n := a[q];
    var p := n.parent.value;
    assert NodeShape(a, q) && NodeShape(a, p);
    assert n.children.Some? && n.children.value != [] ==> ChildAt(a, q, n.children.value, 0);
    assert ChildAt(a, p, a[p].children.value, n.index);
    if v[q] < n.max {
      var own := match n.children
        case None => [q]
        case Some(cs) => if cs == [] then [] else Next(a, v, cs[0]);
      if n.children.None? {
        if n.index == 0 {
          // q would be p's first child, p + 1, with c between p and q: c would be the group p.
          assert false;
        }
        assert Kind(a, v, c, q);
      } else if n.children.value != [] {
        var f := n.children.value[0];
        assert ChildAt(a, q, n.children.value, 0);
        assert NodeShape(a, f);
        assert Next(a, v, f) == [f] + NextSibling(a, v, f)[..0];
        assert Kind(a, v, c, f);
      }
      assert AllKind(a, v, c, own);
      var more := if v[q] >= n.min then NextSibling(a, v, q) else [];
      if v[q] >= n.min {
        NextSiblingKinds(a, v, c, q);
      }
      AllKindConcat(a, v, c, own, more);
      assert Next(a, v, q) == own + more;
    } else {
      NextSiblingKinds(a, v, c, q);
    }
  }

  /** next_sibling of c, of an open group around c, or of an unvisited node whose parent is open. */
  lemma {:induction false} NextSiblingKinds(a: Arena, v: seq<nat>, c: nat, i: nat)
    requires AfterMatch(a, v, c) && i < |a|
    requires (i <= c < a[i].extent) ||
             (c < i && a[i].parent.Some? && a[i].parent.value <= c < a[a[i].parent.value].extent)
    ensures AllKind(a, v, c, NextSibling(a, v, i))
    decreases |a| - a[i].extent, 1, a[i].level
  {
    match a[i].parent
    case None =>
    case Some(p) =>
      InParent(a, i);
      assert NodeShape(a, i) && NodeShape(a, p);
      var cs := a[p].children.value;
      assert ChildAt(a, p, cs, a[i].index);
      if a[i].index + 1 < |cs| {
        assert ChildAt(a, p, cs, a[i].index + 1);
        NextKinds(a, v, c, cs[a[i].index + 1]);
      } else {
        NextSiblingKinds(a, v, c, p);
        if v[p] < a[p].max {
          assert ChildAt(a, p, cs, 0);
          assert Kind(a, v, c, cs[0]);
          AllKindConcat(a, v, c, [cs[0]], NextSibling(a, v, p));
        }
      }
  }

  /** After a match of leaf c, everything next offers is of one of the three kinds. */
  lemma NextAfterMatch(a: Arena, v: seq<nat>, c: nat)
    requires AfterMatch(a, v, c) && v[c] >= 1
    ensures AllKind(a, v, c, Next(a, v, c))
  {
    InParent(a, c);
    assert NodeShape(a, c);
    NextSiblingKinds(a, v, c, c);
    if v[c] < a[c].max {
      assert a[c].index != 0;
      assert Kind(a, v, c, c);
      AllKindConcat(a, v, c, [c], if v[c] >= a[c].min then NextSibling(a, v, c) else []);
    }
  }

  // ---------------------------------------------------------------------------------------
  // The constructor builds a well-formed arena

  /*
   * BuildNode lays a subtree out as a window r of the final arena starting at index at.
   * The predicates below are the shape conditions of NodeShape read through that window;
   * a parent outside the window (below at) is the business of the enclosing call.
   */

  function W(r: Arena, at: nat, c: nat): SpecNode
    requires at <= c < at + |r|
  {
    r[c - at]
  }

  predicate ChildAtIn(r: Arena, at: nat, j: nat, cs: seq<nat>, k: nat)
    requires j < |r| && k < |cs|
  {
    at + j < cs[k] < at + |r| && W(r, at, cs[k]).parent == Some(at + j) && W(r, at, cs[k]).index == k &&
    W(r, at, cs[k]).level == r[j].level + 1 &&
    (k + 1 < |cs| ==> cs[k + 1] == W(r, at, cs[k]).extent)
  }

  predicate ChildrenShapeIn(r: Arena, at: nat, j: nat, cs: seq<nat>)
    requires j < |r|
  {
    (cs == [] ==> r[j].extent == at + j + 1) &&
    (cs != [] ==> cs[0] == at + j + 1 && at <= cs[|cs| - 1] < at + |r| &&
                  W(r, at, cs[|cs| - 1]).extent == r[j].extent) &&
    forall k :: 0 <= k < |cs| ==> ChildAtIn(r, at, j, cs, k)
  }

  predicate ParentLinkIn(r: Arena, at: nat, p: nat, j: nat)
    requires at <= p < at + |r| && j < |r|
  {
    W(r, at, p).children.Some? && r[j].index < |W(r, at, p).children.value| &&
    W(r, at, p).children.value[r[j].index] == at + j
  }

  predicate ShapeIn(r: Arena, at: nat, j: nat)
    requires j < |r|
  {
    at + j < r[j].extent <= at + |r| &&
    (r[j].children.None? ==> r[j].extent == at + j + 1) &&
    (r[j].children.Some? ==> ChildrenShapeIn(r, at, j, r[j].children.value)) &&
    (r[j].parent.Some? && at <= r[j].parent.value ==>
       r[j].parent.value < at + j && ParentLinkIn(r, at, r[j].parent.value, j))
  }

  predicate CheckedNode(n: SpecNode)
  {
    n.index == 0 ==> n.min == 1 && n.max == 1 && (n.parent.Some? ==> n.children.None?)
  }

  /** A window keeps its shape when more nodes follow it. */
  lemma ShapeInPrefix(x: Arena, r: Arena, at: nat, j: nat)
    requires j < |x| <= |r| && x == r[..|x|] && ShapeIn(x, at, j)
    ensures ShapeIn(r, at, j)
  {
    assert forall c :: at <= c < at + |x| ==> W(r, at, c) == W(x, at, c);
    if x[j].children.Some? {
      var cs := x[j].children.value;
      forall k | 0 <= k < |cs|
        ensures ChildAtIn(r, at, j, cs, k)
      {
        assert ChildAtIn(x, at, j, cs, k);
      }
    }
  }

  /** A window keeps its shape when nodes precede it, as long as no parent lies among them. */
  lemma ShapeInSuffix(d: nat, y: Arena, r: Arena, at: nat, i: nat)
    requires d <= i && d <= |r| && y == r[d..] && i - d < |y| && ShapeIn(y, at + d, i - d)
    requires y[i - d].parent.Some? ==> y[i - d].parent.value < at || at + d <= y[i - d].parent.value
    ensures ShapeIn(r, at, i)
  {
    var at', j := at + d, i - d;
    assert r[i] == y[j];
    assert forall c :: at' <= c < at' + |y| ==> W(r, at, c) == W(y, at', c);
    if y[j].children.Some? {
      var cs := y[j].children.value;
      forall k | 0 <= k < |cs|
        ensures ChildAtIn(r, at, i, cs, k)
      {
        assert ChildAtIn(y, at', j, cs, k);
      }
    }
  }

  /** A child window under a new node r[0] at `at`, whose list of children is cs. */
  lemma ShapeInUnder(r: Arena, ns: Arena, at: nat, i: nat, cs: seq<nat>)
    requires |r| == 1 + |ns| && ns == r[1..] && 1 <= i <= |ns| && ShapeIn(ns, at + 1, i - 1)
    requires r[0].children == Some(cs)
    requires ns[i - 1].parent.Some? && (at + 1 <= ns[i - 1].parent.value ||
             (ns[i - 1].parent.value == at && ns[i - 1].index < |cs| && cs[ns[i - 1].index] == at + i))
    ensures ShapeIn(r, at, i)
  {
    var j := i - 1;
    assert r[i] == ns[j];
    assert forall c :: at + 1 <= c < at + 1 + |ns| ==> W(r, at, c) == W(ns, at + 1, c);
    if ns[j].children.Some? {
      var cs' := ns[j].children.value;
      forall k | 0 <= k < |cs'|
        ensures ChildAtIn(r, at, i, cs', k)
      {
        assert ChildAtIn(ns, at + 1, j, cs', k);
      }
    }
    if ns[j].parent.value == at {
      assert W(r, at, at) == r[0];
    }
  }

  /** What BuildChildren promises of the subtrees it lays out from at on, under parent p. */
  predicate ChildrenLaidOut(p: nat, level: nat, k: nat, at: nat, ns: Arena, cs: seq<nat>)
  {
    (cs == [] <==> ns == []) &&
    (cs != [] ==> cs[0] == at && at <= cs[|cs| - 1] < at + |ns| && W(ns, at, cs[|cs| - 1]).extent == at + |ns|) &&
    (forall m :: 0 <= m < |cs| ==> ChildLaidOut(p, level, k, at, ns, cs, m)) &&
    (forall j :: 0 <= j < |ns| ==> ChildNodeLaidOut(p, k, at, ns, cs, j))
  }

  predicate ChildNodeLaidOut(p: nat, k: nat, at: nat, ns: Arena, cs: seq<nat>, j: nat)
    requires j < |ns|
  {
    ShapeIn(ns, at, j) && CheckedNode(ns[j]) && ParentOf(p, k, at, ns, cs, j)
  }

  predicate ChildLaidOut(p: nat, level: nat, k: nat, at: nat, ns: Arena, cs: seq<nat>, m: nat)
    requires m < |cs|
  {
    at <= cs[m] < at + |ns| && W(ns, at, cs[m]).parent == Some(p) && W(ns, at, cs[m]).index == k + m &&
    W(ns, at, cs[m]).level == level &&
    (m + 1 < |cs| ==> cs[m + 1] == W(ns, at, cs[m]).extent)
  }

  /** Node j's parent is inside the window, or it is p and j is one of the listed children. */
  predicate ParentOf(p: nat, k: nat, at: nat, ns: Arena, cs: seq<nat>, j: nat)
    requires j < |ns|
  {
    ns[j].parent.Some? &&
    (at <= ns[j].parent.value ||
     (ns[j].parent == Some(p) && k <= ns[j].index < k + |cs| && cs[ns[j].index - k] == at + j))
  }

  /** What BuildNode promises of the subtree it lays out from at on. */
  predicate SubtreeLaidOut(parent: Option<nat>, level: nat, index: nat, at: nat, r: Arena)
  {
    |r| >= 1 && r[0].parent == parent && r[0].level == level && r[0].index == index &&
    r[0].extent == at + |r| &&
    forall j :: 0 <= j < |r| ==> NodeLaidOut(r, at, j)
  }

  predicate NodeLaidOut(r: Arena, at: nat, j: nat)
    requires j < |r|
  {
    ShapeIn(r, at, j) && CheckedNode(r[j]) && (j > 0 ==> r[j].parent.Some? && at <= r[j].parent.value)
  }

  /** A node followed by the subtrees of its children is a laid-out subtree. */
  lemma GroupLaidOut(parent: Option<nat>, level: nat, index: nat, at: nat, r: Arena, cs: seq<nat>)
    requires parent.Some? ==> parent.value < at
    requires |r| >= 1 && r[0].parent == parent && r[0].level == level && r[0].index == index
    requires r[0].children == Some(cs) && r[0].extent == at + |r| && CheckedNode(r[0])
    requires ChildrenLaidOut(at, level + 1, 0, at + 1, r[1..], cs)
    ensures SubtreeLaidOut(parent, level, index, at, r)
  {
    var ns := r[1..];
    forall j | 0 <= j < |r|
      ensures NodeLaidOut(r, at, j)
    {
      if j == 0 {
        assert forall c :: at + 1 <= c < at + 1 + |ns| ==> W(r, at, c) == W(ns, at + 1, c);
        forall m | 0 <= m < |cs|
          ensures ChildAtIn(r, at, 0, cs, m)
        {
          assert ChildLaidOut(at, level + 1, 0, at + 1, ns, cs, m);
        }
      } else {
        assert ChildNodeLaidOut(at, 0, at + 1, ns, cs, j - 1);
        ShapeInUnder(r, ns, at, j, cs);
        assert r[j] == ns[j - 1];
      }
    }
  }

  lemma {:induction false} BuildNodeLaidOut(parent: Option<nat>, level: nat, index: nat, spec: SpecDef, at: nat)
    requires parent.Some? ==> parent.value < at
    requires BuildNode(parent, level, index, spec, at).Success?
    ensures SubtreeLaidOut(parent, level, index, at, BuildNode(parent, level, index, spec, at).value)
    decreases spec, 1
  {
    var r := BuildNode(parent, level, index, spec, at).value;
    match spec.segments
    case NoSegments =>
      assert NodeLaidOut(r, at, 0);
    case Segments(specs) =>
      var built := BuildChildren(at, level + 1, specs, 0, at + 1).value;
      BuildChildrenLaidOut(at, level + 1, specs, 0, at + 1);
      assert r[1..] == built.0;
      GroupLaidOut(parent, level, index, at, r, built.1);
  }

  /** One node of a laid-out subtree followed by laid-out sibling subtrees. */
  lemma SiblingNodeLaidOut(p: nat, level: nat, k: nat, at: nat, first: Arena, rest: Arena, restCs: seq<nat>,
                           ns: Arena, j: nat)
    requires p < at && ns == first + rest && j < |ns|
    requires SubtreeLaidOut(Some(p), level, k, at, first)
    requires ChildrenLaidOut(p, level, k + 1, at + |first|, rest, restCs)
    ensures ChildNodeLaidOut(p, k, at, ns, [at] + restCs, j)
  {
    var at' := at + |first|;
    var cs := [at] + restCs;
    if j < |first| {
      assert first == ns[..|first|];
      assert NodeLaidOut(first, at, j);
      ShapeInPrefix(first, ns, at, j);
      assert ns[j] == first[j];
    } else {
      var j' := j - |first|;
      assert rest == ns[|first|..];
      assert ChildNodeLaidOut(p, k + 1, at', rest, restCs, j');
      ShapeInSuffix(|first|, rest, ns, at, j);
      assert ns[j] == rest[j'];
      if rest[j'].parent == Some(p) && at > rest[j'].parent.value {
        assert cs[rest[j'].index - k] == restCs[rest[j'].index - (k + 1)];
      }
    }
  }

  /** A laid-out subtree followed by laid-out sibling subtrees lays out the children list. */
  lemma SiblingsLaidOut(p: nat, level: nat, k: nat, at: nat, first: Arena, rest: Arena, restCs: seq<nat>, ns: Arena)
    requires p < at && ns == first + rest
    requires SubtreeLaidOut(Some(p), level, k, at, first)
    requires ChildrenLaidOut(p, level, k + 1, at + |first|, rest, restCs)
    ensures ChildrenLaidOut(p, level, k, at, ns, [at] + restCs)
  {
    var at' := at + |first|;
    var cs := [at] + restCs;
    forall j | 0 <= j < |ns|
      ensures ChildNodeLaidOut(p, k, at, ns, cs, j)
    {
      SiblingNodeLaidOut(p, level, k, at, first, rest, restCs, ns, j);
    }
    assert W(ns, at, at) == first[0];
    forall m | 0 <= m < |cs|
      ensures ChildLaidOut(p, level, k, at, ns, cs, m)
    {
      if m > 0 {
        assert ChildLaidOut(p, level, k + 1, at', rest, restCs, m - 1);
        assert W(ns, at, cs[m]) == W(rest, at', cs[m]);
      } else if 1 < |cs| {
        assert cs[1] == restCs[0] == at';
      }
    }
    if restCs != [] {
      assert W(ns, at, cs[|cs| - 1]) == W(rest, at', restCs[|restCs| - 1]);
    }
  }

  lemma {:induction false} BuildChildrenLaidOut(p: nat, level: nat, specs: seq<SpecDef>, k: nat, at: nat)
    requires p < at
    requires BuildChildren(p, level, specs, k, at).Success?
    ensures var built := BuildChildren(p, level, specs, k, at).value;
            ChildrenLaidOut(p, level, k, at, built.0, built.1)
    decreases specs, 0
  {
    if specs != [] {
      var first := BuildNode(Some(p), level, k, specs[0], at).value;
      BuildNodeLaidOut(Some(p), level, k, specs[0], at);
      var rest := BuildChildren(p, level, specs[1..], k + 1, at + |first|).value;
      BuildChildrenLaidOut(p, level, specs[1..], k + 1, at + |first|);
      SiblingsLaidOut(p, level, k, at, first, rest.0, rest.1, first + rest.0);
    }
  }

  /**
   * A specification the constructor accepts yields a well-formed arena, every node of which
   * satisfies the constructor's checks.
   */
  lemma BuildWellFormed(spec: SpecDef)
    requires Build(spec).Success?
    ensures WF(Build(spec).value) && Checked(Build(spec).value)
    ensures Build(spec).value[0].parent.None? && Build(spec).value[0].level == 0
  {
    var a := Build(spec).value;
    BuildNodeLaidOut(None, 0, 0, spec, 0);
    assert forall c :: 0 <= c < |a| ==> W(a, 0, c) == a[c];
    forall i | 0 <= i < |a|
      ensures NodeShape(a, i) && CheckedNode(a[i])
    {
      assert NodeLaidOut(a, 0, i);
      if a[i].children.Some? {
        var cs := a[i].children.value;
        forall k | 0 <= k < |cs|
          ensures ChildAt(a, i, cs, k)
        {
          assert ChildAtIn(a, 0, i, cs, k);
        }
      }
    }
  }
}
