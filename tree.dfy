/**
 * SegmentTree of lib/edifact/segment_tree.rb: a state machine that reads segments, matches
 * each against the specification nodes reachable now, keeps the visit counters, and builds
 * the grouped tree of GroupNode and SegmentNode values.
 *
 * The Ruby stack of open GroupNode objects is shared with the tree: every group on it is the
 * last child of the group below it, and the bottom one is the tree itself. The model keeps
 * the tree as a value and the stack as its size `depth`: the open groups are the first
 * `depth` groups along the tree's last-child path, and appending to a stack entry appends
 * at that depth of the path.
 */
module Tree {
  import opened Common
  import opened Nodes
  import opened Validation
  import opened Grammar

  datatype TreeNode = SegmentNode(segment: Segment) | GroupNode(name: string, children: seq<TreeNode>)

  /** SegmentNode#pos, and GroupNode#pos: the first child's, or -1 (NoPosition) when there is none. */
  function Pos(t: TreeNode): Position
  {
    match t
    case SegmentNode(s) => s.pos
    case GroupNode(_, cs) => if cs == [] then NoPosition else Pos(cs[0])
  }

  /** The segments of a tree, in document order. */
  function SegmentsOf(t: TreeNode): seq<Segment>
  {
    match t
    case SegmentNode(s) => [s]
    case GroupNode(_, cs) => SegmentsOfAll(cs)
  }

  function SegmentsOfAll(ts: seq<TreeNode>): seq<Segment>
  {
    if ts == [] then [] else SegmentsOf(ts[0]) + SegmentsOfAll(ts[1..])
  }

  /** Every group of the tree has a child. */
  predicate NoEmptyGroup(t: TreeNode)
  {
    match t
    case SegmentNode(_) => true
    case GroupNode(_, cs) => cs != [] && forall k :: 0 <= k < |cs| ==> NoEmptyGroup(cs[k])
  }

  /** A group's position is that of its first segment in document order. */
  lemma {:induction false} GroupPosIsFirstSegment(t: TreeNode)
    requires NoEmptyGroup(t)
    ensures SegmentsOf(t) != [] && Pos(t) == SegmentsOf(t)[0].pos
  {
    match t
    case SegmentNode(_) =>
    case GroupNode(_, cs) =>
      assert NoEmptyGroup(cs[0]);
      GroupPosIsFirstSegment(cs[0]);
      assert SegmentsOfAll(cs) == SegmentsOf(cs[0]) + SegmentsOfAll(cs[1..]);
  }

  lemma {:induction false} SegmentsOfAllAppend(ts: seq<TreeNode>, t: TreeNode)
    ensures SegmentsOfAll(ts + [t]) == SegmentsOfAll(ts) + SegmentsOf(t)
  {
    if ts == [] {
      assert [t][1..] == [];
      assert ts + [t] == [t];
    } else {
      assert (ts + [t])[1..] == ts[1..] + [t];
      SegmentsOfAllAppend(ts[1..], t);
    }
  }

  /** How many groups the last-child path from t passes through, t included. */
  function OpenDepth(t: TreeNode): nat
  {
    match t
    case SegmentNode(_) => 0
    case GroupNode(_, cs) => 1 + (if cs == [] then 0 else OpenDepth(cs[|cs| - 1]))
  }

  /** The group at depth d of the last-child path (0 is t itself). */
  function OpenGroup(t: TreeNode, d: nat): (g: TreeNode)
    requires d < OpenDepth(t)
    ensures g.GroupNode?
  {
    if d == 0 then t else OpenGroup(t.children[|t.children| - 1], d - 1)
  }

  /** One step further down the path is the last child of the group at the current depth. */
  lemma {:induction false} OpenGroupLast(t: TreeNode, d: nat)
    requires d + 1 < OpenDepth(t)
    ensures OpenGroup(t, d).children != []
    ensures OpenGroup(t, d + 1) == OpenGroup(t, d).children[|OpenGroup(t, d).children| - 1]
  {
    if d > 0 {
      OpenGroupLast(t.children[|t.children| - 1], d - 1);
    }
  }

  /** `stack[d].segments << c`: append c to the group at depth d of the last-child path. */
  function AppendAt(t: TreeNode, d: nat, c: TreeNode): (r: TreeNode)
    requires d < OpenDepth(t)
    ensures r.GroupNode? && r.name == t.name
    ensures OpenDepth(r) == d + 1 + OpenDepth(c)
  {
    var cs := t.children;
    if d == 0 then GroupNode(t.name, cs + [c])
    else GroupNode(t.name, cs[..|cs| - 1] + [AppendAt(cs[|cs| - 1], d - 1, c)])
  }

  /** Appending at an open group adds c's segments at the end of the document order. */
  lemma {:induction false} AppendSegments(t: TreeNode, d: nat, c: TreeNode)
    requires d < OpenDepth(t)
    ensures SegmentsOf(AppendAt(t, d, c)) == SegmentsOf(t) + SegmentsOf(c)
  {
    var cs := t.children;
    if d == 0 {
      SegmentsOfAllAppend(cs, c);
    } else {
      var last := cs[|cs| - 1];
      AppendSegments(last, d - 1, c);
      assert cs == cs[..|cs| - 1] + [last];
      SegmentsOfAllAppend(cs[..|cs| - 1], last);
      SegmentsOfAllAppend(cs[..|cs| - 1], AppendAt(last, d - 1, c));
    }
  }

  /**
   * Appending at an open group adds c as the last child of that group and leaves the groups
   * above it on the path (by name) as they were.
   */
  lemma {:induction false} AppendOpen(t: TreeNode, d: nat, c: TreeNode)
    requires d < OpenDepth(t)
    ensures OpenGroup(AppendAt(t, d, c), d).name == OpenGroup(t, d).name
    ensures var g := OpenGroup(AppendAt(t, d, c), d);
            g.children == OpenGroup(t, d).children + [c]
    ensures forall e :: 0 <= e < d ==> OpenGroup(AppendAt(t, d, c), e).name == OpenGroup(t, e).name
  {
    if d > 0 {
      var cs := t.children;
      var last := cs[|cs| - 1];
      AppendOpen(last, d - 1, c);
      var r := AppendAt(t, d, c);
      assert r.children[|r.children| - 1] == AppendAt(last, d - 1, c);
      forall e | 0 < e < d
        ensures OpenGroup(r, e).name == OpenGroup(t, e).name
      {
        assert OpenGroup(r, e) == OpenGroup(AppendAt(last, d - 1, c), e - 1);
      }
    }
  }

  // ---------------------------------------------------------------------------------------
  // The state machine

  /** The fields on_segment reads and writes: visits of all nodes, @spec_nodes, @tree, the stack size. */
  datatype TreeState = TreeState(visits: seq<nat>, specNodes: seq<nat>, tree: Option<TreeNode>, depth: nat)

  predicate Inv(a: Arena, st: TreeState)
  {
    |st.visits| == |a| &&
    (forall k :: 0 <= k < |st.specNodes| ==> st.specNodes[k] < |a|) &&
    (st.tree.None? ==> st.depth == 0) &&
    (st.tree.Some? ==> st.tree.value.GroupNode? && st.depth <= OpenDepth(st.tree.value))
  }

  /** SegmentTree.new: no tree, no open group, no visits, and @spec_nodes = root.next. */
  function Start(a: Arena): (st: TreeState)
    requires WF(a)
    ensures Inv(a, st)
  {
    var v := seq(|a|, j => 0);
    TreeState(v, Next(a, v, 0), None, 0)
  }

  /** The position in nodes of the first node named name, as @spec_nodes.each finds it. */
  function FirstMatch(a: Arena, nodes: seq<nat>, name: string): (r: Option<nat>)
    requires forall k :: 0 <= k < |nodes| ==> nodes[k] < |a|
    ensures r.None? <==> forall k :: 0 <= k < |nodes| ==> a[nodes[k]].name != name
    ensures r.Some? ==> r.value < |nodes| && a[nodes[r.value]].name == name &&
                        forall k :: 0 <= k < r.value ==> a[nodes[k]].name != name
  {
    if nodes == [] then None
    else if a[nodes[0]].name == name then Some(0)
    else match FirstMatch(a, nodes[1..], name)
      case None => None
      case Some(k) => Some(k + 1)
  }

  /**
   * The visit counters when group p starts a new repetition: p's count goes up by one and
   * every node inside p's subtree is set back to 0.
   */
  function Repeat(a: Arena, v: seq<nat>, p: nat): (r: seq<nat>)
    requires |v| == |a| && p < |a|
    ensures |r| == |a|
    ensures r[p] == v[p] + 1
    ensures forall j :: 0 <= j < |a| && p < j < a[p].extent ==> r[j] == 0
    ensures forall j :: 0 <= j < |a| && j != p && !(p < j < a[p].extent) ==> r[j] == v[j]
  {
    seq(|a|, j requires 0 <= j < |a| => if j == p then v[p] + 1 else if p < j < a[p].extent then 0 else v[j])
  }

  /** The result of one call: the state after it, and the error it raised, if any. */
  datatype Outcome = Outcome(state: TreeState, error: Option<Error>)

  /** The number of groups open after a match: the pops, then a new group for a first child. */
  function DepthAfter(depth: nat, n: SpecNode): nat
  {
    if n.index == 0 then (if depth < n.level then depth else n.level - 1) + 1
    else if depth <= n.level then depth else n.level
  }

  /**
   * The first half of on_segment for a match j below the root: pop the stack down to j's
   * level; when j is the first child of its group p, pop once more, open a new group named
   * after p (the new root when nothing is left open) and start a new repetition of p.
   */
  function Enter(a: Arena, st: TreeState, j: nat): (r: TreeState)
    requires WF(a) && Inv(a, st) && j < |a| && a[j].level > 0
    ensures Inv(a, r) && r.specNodes == st.specNodes && r.depth == DepthAfter(st.depth, a[j])
  {
    var n := a[j];
    var d1 := if st.depth <= n.level then st.depth else n.level;
    if n.index == 0 then
      assert NodeShape(a, j);
      var p := n.parent.value;
      var d2 := if d1 < n.level then d1 else n.level - 1;
      var g := GroupNode(a[p].name, []);
      var tree1 := if d2 == 0 then g else AppendAt(st.tree.value, d2 - 1, g);
      TreeState(Repeat(a, st.visits, p), st.specNodes, Some(tree1), d2 + 1)
    else
      st.(depth := d1)
  }

  /** on_segment */
  function Step(a: Arena, rx: (string, string) -> bool, st: TreeState, seg: Segment): (o: Outcome)
    requires WF(a) && Inv(a, st)
    ensures Inv(a, o.state)
  {
    match FirstMatch(a, st.specNodes, seg.name)
    case None => Outcome(st, Some(Error(InvalidSegment, seg.pos)))
    case Some(k) =>
      var j := st.specNodes[k];
      if a[j].level == 0 then
        // The root itself matched: the second until loop waits for a stack size below 0.
        Outcome(st.(depth := 0), Some(Error(Hangs, NoPosition)))
      else
        Place(a, rx, Enter(a, st, j), j, seg)
  }

  /**
   * The second half of on_segment, once the stack is ready for the matched node j: the
   * segment appended to the innermost open group and counted, then its elements checked; the
   * reachable nodes move on only when the check passes.
   */
  function Place(a: Arena, rx: (string, string) -> bool, e: TreeState, j: nat, seg: Segment): (o: Outcome)
    requires WF(a) && Inv(a, e) && j < |a|
    ensures Inv(a, o.state)
  {
    if e.depth == 0 then
      Outcome(e, Some(Error(NoOpenGroup, NoPosition)))
    else
      var st2 := e.(tree := Some(AppendAt(e.tree.value, e.depth - 1, SegmentNode(seg))),
                    visits := e.visits[j := e.visits[j] + 1]);
      match ValidateSegment(a[j].elements, seg, rx)
      case Fail(err) => Outcome(st2, Some(err))
      case Pass => Outcome(st2.(specNodes := Next(a, st2.visits, j)), None)
  }

  /** on_eof: the end is premature exactly when a reachable node has not had its minimum. */
  function EofCheck(a: Arena, st: TreeState): (r: Option<Error>)
    requires Inv(a, st)
    ensures r.Some? <==> exists k :: 0 <= k < |st.specNodes| && a[st.specNodes[k]].min > st.visits[st.specNodes[k]]
    ensures r.Some? ==> r.value == Error(PrematureEnd, NoPosition)
  {
    if exists k :: 0 <= k < |st.specNodes| && a[st.specNodes[k]].min > st.visits[st.specNodes[k]] then
      Some(Error(PrematureEnd, NoPosition))
    else None
  }

  /** Feeding a list of segments one by one, stopping at the first error, then on_eof. */
  function Feed(a: Arena, rx: (string, string) -> bool, st: TreeState, segs: seq<Segment>): (o: Outcome)
    requires WF(a) && Inv(a, st)
    ensures Inv(a, o.state)
    decreases |segs|
  {
    if segs == [] then Outcome(st, EofCheck(a, st))
    else
      var o := Step(a, rx, st, segs[0]);
      if o.error.Some? then o else Feed(a, rx, o.state, segs[1..])
  }

  // ---------------------------------------------------------------------------------------
  // What one step does

  /** The segments of the tree, in document order. */
  function TreeSegments(st: TreeState): seq<Segment>
  {
    if st.tree.None? then [] else SegmentsOf(st.tree.value)
  }

  /** The node a segment matches: the first reachable one with its name. */
  function Matched(a: Arena, st: TreeState, seg: Segment): (j: nat)
    requires Inv(a, st) && FirstMatch(a, st.specNodes, seg.name).Some?
    ensures j < |a| && a[j].name == seg.name
  {
    st.specNodes[FirstMatch(a, st.specNodes, seg.name).value]
  }

  /** The segment matches a node below the root, and a group is open to append it to. */
  predicate Appends(a: Arena, st: TreeState, seg: Segment)
    requires Inv(a, st)
  {
    FirstMatch(a, st.specNodes, seg.name).Some? &&
    a[Matched(a, st, seg)].level > 0 && DepthAfter(st.depth, a[Matched(a, st, seg)]) > 0
  }

  /** A new group replaces the tree: a first child is matched with no group left open below it. */
  predicate Replaces(a: Arena, st: TreeState, seg: Segment)
    requires Inv(a, st) && FirstMatch(a, st.specNodes, seg.name).Some?
  {
    var n := a[Matched(a, st, seg)];
    n.index == 0 && (st.depth == 0 || n.level == 1)
  }

  /**
   * The errors of on_segment. An unreachable name raises at the segment's position. A match
   * of the root itself never returns. A match that is not a first child with no group open
   * calls a method on nil. Otherwise the segment is appended, and the only error left is
   * that of the element checks.
   */
  lemma StepErrors(a: Arena, rx: (string, string) -> bool, st: TreeState, seg: Segment)
    requires WF(a) && Inv(a, st)
    ensures var o := Step(a, rx, st, seg);
      (FirstMatch(a, st.specNodes, seg.name).None? <==> o.error == Some(Error(InvalidSegment, seg.pos))) &&
      (FirstMatch(a, st.specNodes, seg.name).None? ==> o.state == st) &&
      (FirstMatch(a, st.specNodes, seg.name).Some? && a[Matched(a, st, seg)].level == 0 ==>
         o.error == Some(Error(Hangs, NoPosition))) &&
      (FirstMatch(a, st.specNodes, seg.name).Some? && a[Matched(a, st, seg)].level > 0 && !Appends(a, st, seg) ==>
         o.error == Some(Error(NoOpenGroup, NoPosition))) &&
      (Appends(a, st, seg) ==>
         var check := ValidateSegment(a[Matched(a, st, seg)].elements, seg, rx);
         (check.Pass? <==> o.error.None?) && (check.Fail? ==> o.error == Some(check.error)))
  {
    if FirstMatch(a, st.specNodes, seg.name).Some? {
      var j := Matched(a, st, seg);
      assert NodeShape(a, j);
      if j > 0 {
        InParent(a, j);
      }
      var check := ValidateSegment(a[j].elements, seg, rx);
      if check.Fail? {
        ValidateSegmentErrors(a[j].elements, seg, rx);
      }
    }
  }

  /** An unknown segment raises at the segment's position and changes nothing. */
  lemma StepUnmatched(a: Arena, rx: (string, string) -> bool, st: TreeState, seg: Segment)
    requires WF(a) && Inv(a, st)
    ensures (forall k :: 0 <= k < |st.specNodes| ==> a[st.specNodes[k]].name != seg.name)
        <==> Step(a, rx, st, seg).error == Some(Error(InvalidSegment, seg.pos))
    ensures Step(a, rx, st, seg).error == Some(Error(InvalidSegment, seg.pos)) ==> Step(a, rx, st, seg).state == st
  {
    StepErrors(a, rx, st, seg);
  }

  /** The group at depth d of the path ends with c. */
  predicate LastChildIs(t: TreeNode, d: nat, c: TreeNode)
    requires d < OpenDepth(t)
  {
    OpenGroup(t, d).children != [] &&
    OpenGroup(t, d).children[|OpenGroup(t, d).children| - 1] == c
  }

  /** What Enter does to the counters: a first child starts a new repetition of its parent. */
  lemma EnterVisits(a: Arena, st: TreeState, j: nat)
    requires WF(a) && Inv(a, st) && j < |a| && a[j].level > 0
    ensures var e := Enter(a, st, j);
      (a[j].index != 0 ==> e.visits == st.visits) &&
      (a[j].index == 0 ==>
         a[j].parent.Some? && a[j].parent.value < j < a[a[j].parent.value].extent &&
         e.visits == Repeat(a, st.visits, a[j].parent.value))
  {
    assert NodeShape(a, 0);
    InParent(a, j);
  }

  /** What Enter does to the tree: a first child opens a new group named after its parent. */
  lemma EnterOpen(a: Arena, st: TreeState, j: nat)
    requires WF(a) && Inv(a, st) && j < |a| && a[j].level > 0
    ensures var e := Enter(a, st, j);
      (a[j].index != 0 ==> e.tree == st.tree) &&
      (a[j].index == 0 ==>
         a[j].parent.Some? && a[j].parent.value < |a| && e.tree.Some? && 0 < e.depth <= OpenDepth(e.tree.value) &&
         OpenGroup(e.tree.value, e.depth - 1) == GroupNode(a[a[j].parent.value].name, []))
  {
    var n := a[j];
    if n.index == 0 {
      assert NodeShape(a, j);
      var d1 := if st.depth <= n.level then st.depth else n.level;
      var d2 := if d1 < n.level then d1 else n.level - 1;
      if d2 > 0 {
        var g := GroupNode(a[n.parent.value].name, []);
        AppendedOpen(st.tree.value, d2 - 1, g);
      }
    }
  }

  /** Enter keeps the segments, unless the new group becomes the root and drops them. */
  lemma EnterSegments(a: Arena, st: TreeState, j: nat)
    requires WF(a) && Inv(a, st) && j < |a| && a[j].level > 0
    ensures TreeSegments(Enter(a, st, j)) ==
            (if a[j].index == 0 && (st.depth == 0 || a[j].level == 1) then [] else TreeSegments(st))
  {
    var n := a[j];
    if n.index == 0 {
      assert NodeShape(a, j);
      var d1 := if st.depth <= n.level then st.depth else n.level;
      var d2 := if d1 < n.level then d1 else n.level - 1;
      var g := GroupNode(a[n.parent.value].name, []);
      assert SegmentsOf(g) == [];
      if d2 > 0 {
        AppendSegments(st.tree.value, d2 - 1, g);
      }
    }
  }

  /**
   * How an appended segment changes the tree: the open groups are popped down to the matched
   * node's level, or just below it when the node starts a new group named after its parent;
   * the segment becomes the last child of the innermost open group.
   */
  lemma StepTree(a: Arena, rx: (string, string) -> bool, st: TreeState, seg: Segment)
    requires WF(a) && Inv(a, st) && Appends(a, st, seg)
    ensures var o := Step(a, rx, st, seg).state;
            var n := a[Matched(a, st, seg)];
      o.depth == DepthAfter(st.depth, n) && o.tree.Some? && 0 < o.depth <= OpenDepth(o.tree.value) &&
      LastChildIs(o.tree.value, o.depth - 1, SegmentNode(seg))
  {
    var j := Matched(a, st, seg);
    var e := Enter(a, st, j);
    StepPlaces(a, rx, st, seg);
    AppendOpen(e.tree.value, e.depth - 1, SegmentNode(seg));
  }

  /** A segment matching the first child of a group lands in a new group named after that group. */
  lemma StepGroupName(a: Arena, rx: (string, string) -> bool, st: TreeState, seg: Segment)
    requires WF(a) && Inv(a, st) && Appends(a, st, seg) && a[Matched(a, st, seg)].index == 0
    ensures var o := Step(a, rx, st, seg).state;
            var n := a[Matched(a, st, seg)];
      n.parent.Some? && n.parent.value < |a| && o.tree.Some? && 0 < o.depth <= OpenDepth(o.tree.value) &&
      OpenGroup(o.tree.value, o.depth - 1).name == a[n.parent.value].name
  {
    StepPlaces(a, rx, st, seg);
    EnterAppendName(a, st, Matched(a, st, seg), SegmentNode(seg));
  }

  /** Appending below a new group that Enter opened keeps that group's name. */
  lemma EnterAppendName(a: Arena, st: TreeState, j: nat, c: TreeNode)
    requires WF(a) && Inv(a, st) && j < |a| && a[j].level > 0 && a[j].index == 0
    ensures var e := Enter(a, st, j);
      a[j].parent.Some? && a[j].parent.value < |a| && e.tree.Some? && 0 < e.depth <= OpenDepth(e.tree.value) &&
      OpenGroup(AppendAt(e.tree.value, e.depth - 1, c), e.depth - 1).name == a[a[j].parent.value].name
  {
    var e := Enter(a, st, j);
    EnterOpen(a, st, j);
    AppendOpen(e.tree.value, e.depth - 1, c);
  }

  /** The segment becomes the last one of the tree in document order; a new root group drops the old tree. */
  lemma StepTreeSegments(a: Arena, rx: (string, string) -> bool, st: TreeState, seg: Segment)
    requires WF(a) && Inv(a, st) && Appends(a, st, seg)
    ensures TreeSegments(Step(a, rx, st, seg).state) ==
            (if Replaces(a, st, seg) then [] else TreeSegments(st)) + [seg]
  {
    var j := Matched(a, st, seg);
    var e := Enter(a, st, j);
    StepPlaces(a, rx, st, seg);
    EnterSegments(a, st, j);
    AppendSegments(e.tree.value, e.depth - 1, SegmentNode(seg));
  }

  /**
   * How an appended segment changes the counters: when the matched node j is the first child
   * of its group, the group's count goes up by one and its subtree, j included, starts from 0;
   * then j's count goes up by one. Nothing else changes. When the element checks pass, the
   * reachable list becomes next of j; when they fail it stays as it was.
   */
  lemma StepVisits(a: Arena, rx: (string, string) -> bool, st: TreeState, seg: Segment)
    requires WF(a) && Inv(a, st) && Appends(a, st, seg)
    ensures var o := Step(a, rx, st, seg);
            var j := Matched(a, st, seg);
      (a[j].index == 0 ==> a[j].parent.Some? && a[j].parent.value < j < a[a[j].parent.value].extent &&
                           o.state.visits == Repeat(a, st.visits, a[j].parent.value)[j := 1]) &&
      (a[j].index != 0 ==> o.state.visits == st.visits[j := st.visits[j] + 1]) &&
      (o.error.None? ==> o.state.specNodes == Next(a, o.state.visits, j)) &&
      (o.error.Some? ==> o.state.specNodes == st.specNodes)
  {
    StepCounts(a, rx, st, seg);
    EnterVisits(a, st, Matched(a, st, seg));
  }

  // ---------------------------------------------------------------------------------------
  // The tree follows the specification

  /**
   * t is an instance of specification node x: a segment node is an instance of a leaf of
   * the same name, and a group node is named after a group of the specification and holds
   * only instances of that group's children.
   */
  predicate Conforms(a: Arena, t: TreeNode, x: nat)
    decreases t
  {
    x < |a| &&
    match t
    case SegmentNode(s) => a[x].children.None? && a[x].name == s.name
    case GroupNode(n, cs) =>
      a[x].children.Some? && n == a[x].name &&
      forall k :: 0 <= k < |cs| ==>
        exists i :: 0 <= i < |a[x].children.value| && Conforms(a, cs[k], a[x].children.value[i])
  }

  /** A group stays an instance of x when an instance of a child of x is added at its end or replaces its last child. */
  lemma AddChild(a: Arena, n: string, cs: seq<TreeNode>, x: nat, c: TreeNode, y: nat, keep: nat)
    requires Conforms(a, GroupNode(n, cs), x) && keep <= |cs|
    requires y < |a| && ParentLink(a, x, y) && Conforms(a, c, y)
    ensures Conforms(a, GroupNode(n, cs[..keep] + [c]), x)
  {
    var r := cs[..keep] + [c];
    forall k | 0 <= k < |r|
      ensures exists i :: 0 <= i < |a[x].children.value| && Conforms(a, r[k], a[x].children.value[i])
    {
      if k < keep {
        assert r[k] == cs[k];
      } else {
        assert r[k] == c && a[x].children.value[a[y].index] == y;
      }
    }
  }

  /**
   * Appending an instance of a child y of xs[d] at depth d keeps every open group along the
   * path an instance of the matching entry of the chain xs.
   */
  lemma {:induction false} AppendConforms(a: Arena, t: TreeNode, d: nat, c: TreeNode, xs: seq<nat>, y: nat)
    requires WF(a) && d < OpenDepth(t) && d < |xs|
    requires forall e :: 0 <= e <= d ==> Conforms(a, OpenGroup(t, e), xs[e])
    requires forall e :: 0 < e <= d ==> xs[e] < |a| && a[xs[e]].parent == Some(xs[e - 1])
    requires y < |a| && a[y].parent == Some(xs[d]) && Conforms(a, c, y)
    ensures forall e :: 0 <= e <= d ==> Conforms(a, OpenGroup(AppendAt(t, d, c), e), xs[e])
    decreases d
  {
    var r := AppendAt(t, d, c);
    var cs := t.children;
    assert Conforms(a, GroupNode(t.name, cs), xs[0]);
    if d == 0 {
      assert ParentLink(a, xs[0], y) by {
        assert NodeShape(a, y);
      }
      AddChild(a, t.name, cs, xs[0], c, y, |cs|);
      assert cs[..|cs|] == cs;
    } else {
      var last := cs[|cs| - 1];
      forall e | 0 <= e <= d - 1
        ensures Conforms(a, OpenGroup(last, e), xs[1..][e])
      {
        assert OpenGroup(t, e + 1) == OpenGroup(last, e);
      }
      AppendConforms(a, last, d - 1, c, xs[1..], y);
      var r1 := AppendAt(last, d - 1, c);
      assert Conforms(a, r, xs[0]) by {
        assert ParentLink(a, xs[0], xs[1]) by {
          assert NodeShape(a, xs[1]);
        }
        assert Conforms(a, OpenGroup(r1, 0), xs[1]);
        AddChild(a, t.name, cs, xs[0], r1, xs[1], |cs| - 1);
      }
      forall e | 0 < e <= d
        ensures Conforms(a, OpenGroup(r, e), xs[e])
      {
        assert OpenGroup(r, e) == OpenGroup(r1, e - 1);
        assert xs[1..][e - 1] == xs[e];
      }
    }
  }

  /** Appending a tree without empty groups keeps the tree free of empty groups. */
  lemma {:induction false} AppendNoEmpty(t: TreeNode, d: nat, c: TreeNode)
    requires d < OpenDepth(t) && NoEmptyGroup(t) && NoEmptyGroup(c)
    ensures NoEmptyGroup(AppendAt(t, d, c))
    decreases d
  {
    var cs := t.children;
    var r := AppendAt(t, d, c);
    if d == 0 {
      assert forall k :: 0 <= k < |r.children| ==> r.children[k] == if k < |cs| then cs[k] else c;
    } else {
      AppendNoEmpty(cs[|cs| - 1], d - 1, c);
      assert forall k :: 0 <= k < |r.children| ==>
        r.children[k] == if k < |cs| - 1 then cs[k] else AppendAt(cs[|cs| - 1], d - 1, c);
    }
  }

  /** Opening a new group at depth d and appending c inside it is appending the group holding c. */
  lemma {:induction false} AppendIntoNewGroup(t: TreeNode, d: nat, n: string, c: TreeNode)
    requires d < OpenDepth(t)
    ensures d + 1 < OpenDepth(AppendAt(t, d, GroupNode(n, [])))
    ensures AppendAt(AppendAt(t, d, GroupNode(n, [])), d + 1, c) == AppendAt(t, d, GroupNode(n, [c]))
    decreases d
  {
    var cs := t.children;
    var r := AppendAt(t, d, GroupNode(n, []));
    if d > 0 {
      var pre := cs[..|cs| - 1];
      var last := cs[|cs| - 1];
      AppendIntoNewGroup(last, d - 1, n, c);
      var x := AppendAt(last, d - 1, GroupNode(n, []));
      SnocParts(pre, x);
      assert AppendAt(r, d + 1, c) == GroupNode(t.name, pre + [AppendAt(x, d, c)]);
    } else {
      SnocParts(cs, GroupNode(n, []));
      assert [] + [c] == [c];
      assert AppendAt(r, 1, c) == GroupNode(t.name, cs + [GroupNode(n, [c])]);
    }
  }

  /** The parts of a sequence with one element added at the end. */
  lemma SnocParts<T>(p: seq<T>, x: T)
    ensures (p + [x])[..|p|] == p && (p + [x])[|p|] == x
  {
  }

  // ---------------------------------------------------------------------------------------
  // The invariant of a run

  /** The open groups, from the root down, are instances of the ancestors of the last match c. */
  predicate OpenConforms(a: Arena, st: TreeState, c: nat)
    requires WF(a) && Inv(a, st) && c < |a|
  {
    st.depth == a[c].level &&
    forall e :: 0 <= e < st.depth ==> Conforms(a, OpenGroup(st.tree.value, e), Chain(a, c)[e])
  }

  /**
   * What holds between two segments of a run that has had no error, c being the node last
   * matched: nothing has been read yet (c is the root), or c is a leaf, the root group has had
   * its only visit, nothing after c is visited yet, the open groups are instances of c's
   * ancestors, and no group is empty. @spec_nodes is next of c.
   */
  predicate Good(a: Arena, st: TreeState, c: nat)
  {
    WF(a) && Checked(a) && Inv(a, st) && c < |a| &&
    st.specNodes == Next(a, st.visits, c) &&
    (c == 0 ==> st == Start(a)) &&
    (c > 0 ==> a[c].children.None? && st.visits[c] >= 1 && st.visits[0] == 1 &&
               Fresh(a, st.visits, c) && OpenConforms(a, st, c) && st.tree.Some? && NoEmptyGroup(st.tree.value))
  }

  /** The only node offered at the start that can be matched without error is the root group's first child. */
  lemma StartMatch(a: Arena, rx: (string, string) -> bool, seg: Segment)
    requires WF(a) && Checked(a) && Step(a, rx, Start(a), seg).error.None?
    ensures FirstMatch(a, Start(a).specNodes, seg.name).Some? && Matched(a, Start(a), seg) == 1
    ensures Appends(a, Start(a), seg) && a[1].index == 0 && a[1].parent == Some(0) && a[1].level == 1
    ensures a[1].children.None?
  {
    var st := Start(a);
    var v := st.visits;
    assert NodeShape(a, 0);
    StepErrors(a, rx, st, seg);
    if a[0].children.Some? && a[0].children.value != [] {
      assert ChildAt(a, 0, a[0].children.value, 0);
      assert NodeShape(a, 1);
      assert Next(a, v, 1) == [1] + NextSibling(a, v, 1)[..0];
      assert st.specNodes == [1];
    } else {
      assert false;
    }
  }

  /** Entering the root group's first child at the start opens the root group and counts its visit. */
  lemma StartEnter(a: Arena)
    requires WF(a) && Checked(a) && 1 < |a| && a[1].index == 0 && a[1].parent == Some(0) && a[1].level == 1
    ensures var e := Enter(a, Start(a), 1);
      e.tree == Some(GroupNode(a[0].name, [])) && e.depth == 1
    ensures var v := Repeat(a, Start(a).visits, 0)[1 := 1];
      v[0] == 1 && v[1] == 1 && Fresh(a, v, 1)
  {
    assert NodeShape(a, 0);
  }

  /** The root group holding only the first segment is an instance of the root. */
  lemma FirstTree(a: Arena, seg: Segment)
    requires WF(a) && 1 < |a| && a[1].parent == Some(0) && a[1].index == 0
    requires a[1].children.None? && a[1].name == seg.name
    ensures Conforms(a, GroupNode(a[0].name, [SegmentNode(seg)]), 0)
    ensures PathConforms(a, GroupNode(a[0].name, [SegmentNode(seg)]), 1, Chain(a, 1))
  {
    assert NodeShape(a, 1) && ParentLink(a, 0, 1);
    assert Chain(a, 1) == [0];
  }

  /** Appending to the empty root gives the root holding only that node. */
  lemma FirstAppend(n: string, sn: TreeNode)
    ensures AppendAt(GroupNode(n, []), 0, sn) == GroupNode(n, [sn])
    ensures SegmentsOf(GroupNode(n, [sn])) == SegmentsOf(sn)
  {
    assert [] + [sn] == [sn];
    SegmentsOfAllAppend([], sn);
  }

  /** The invariant, from its parts. */
  lemma GoodIntro(a: Arena, o: TreeState, c: nat)
    requires WF(a) && Checked(a) && Inv(a, o) && 0 < c < |a| && o.specNodes == Next(a, o.visits, c)
    requires a[c].children.None? && o.visits[c] >= 1 && o.visits[0] == 1 && Fresh(a, o.visits, c)
    requires o.tree.Some? && o.depth == a[c].level && NoEmptyGroup(o.tree.value)
    requires PathConforms(a, o.tree.value, a[c].level, Chain(a, c))
    ensures Good(a, o, c)
  {
  }

  /** The state after the first segment is in the invariant. */
  lemma StartGood(a: Arena, seg: Segment, o: TreeState)
    requires WF(a) && Checked(a) && 1 < |a| && a[1].index == 0 && a[1].parent == Some(0) && a[1].level == 1
    requires a[1].children.None? && a[1].name == seg.name && Inv(a, o)
    requires o.visits == Repeat(a, Start(a).visits, 0)[1 := 1] && o.specNodes == Next(a, o.visits, 1)
    requires o.tree == Some(GroupNode(a[0].name, [SegmentNode(seg)])) && o.depth == 1
    ensures Good(a, o, 1) && TreeSegments(o) == [seg]
  {
    StartEnter(a);
    FirstTree(a, seg);
    FirstAppend(a[0].name, SegmentNode(seg));
  }

  /**
   * The first segment of a run that has no error opens the root group and becomes its first
   * child, and the run is then in the invariant.
   */
  lemma StartStep(a: Arena, rx: (string, string) -> bool, seg: Segment)
    requires WF(a) && Checked(a) && Step(a, rx, Start(a), seg).error.None?
    ensures FirstMatch(a, Start(a).specNodes, seg.name).Some? && Matched(a, Start(a), seg) == 1
    ensures Good(a, Step(a, rx, Start(a), seg).state, 1)
    ensures TreeSegments(Step(a, rx, Start(a), seg).state) == [seg]
  {
    var st := Start(a);
    StartMatch(a, rx, seg);
    StepVisits(a, rx, st, seg);
    StepPlaces(a, rx, st, seg);
    StartEnter(a);
    FirstAppend(a[0].name, SegmentNode(seg));
    StartGood(a, seg, Step(a, rx, st, seg).state);
  }

  /** The facts about a match after the first that the invariant gives. */
  lemma StepKind(a: Arena, rx: (string, string) -> bool, st: TreeState, c: nat, seg: Segment)
    requires Good(a, st, c) && c > 0 && Step(a, rx, st, seg).error.None?
    ensures Appends(a, st, seg)
    ensures var j := Matched(a, st, seg);
      Kind(a, st.visits, c, j) && a[j].children.None? && a[j].parent.Some? &&
      (a[j].index == 0 ==> 0 < a[j].parent.value && a[a[j].parent.value].parent.Some?) &&
      ValidateSegment(a[j].elements, seg, rx).Pass?
  {
    StepErrors(a, rx, st, seg);
    var j := Matched(a, st, seg);
    var k := FirstMatch(a, st.specNodes, seg.name).value;
    NextAfterMatch(a, st.visits, c);
    NextReachable(a, st.visits, c);
    assert j == st.specNodes[k];
    assert Kind(a, st.visits, c, j) && Reachable(a, st.visits, j);
    assert NodeShape(a, 0);
    if a[j].index == 0 && a[j].parent.value == 0 {
      // the root group has had its one visit.
      assert false;
    }
    if a[j].index == 0 {
      InParent(a, a[j].parent.value);
    }
  }

  /** After a match j, j has been visited, the root keeps its one visit and nothing after j is visited. */
  lemma StepCounters(a: Arena, rx: (string, string) -> bool, st: TreeState, c: nat, seg: Segment)
    requires Good(a, st, c) && c > 0 && Step(a, rx, st, seg).error.None?
    ensures Appends(a, st, seg)
    ensures var o := Step(a, rx, st, seg).state;
            var j := Matched(a, st, seg);
      j < |a| && o.visits[j] >= 1 && o.visits[0] == 1 && Fresh(a, o.visits, j)
  {
    StepKind(a, rx, st, c, seg);
    StepVisits(a, rx, st, seg);
    var j := Matched(a, st, seg);
    var o := Step(a, rx, st, seg).state;
    var v := st.visits;
    InParent(a, j);
    var p := a[j].parent.value;
    if a[j].index == 0 {
      InParent(a, p);
      assert forall y :: j < y < |a| ==> o.visits[y] == 0;
    }
  }


  /** The open groups of t, down to depth d, are instances of the chain xs. */
  predicate PathConforms(a: Arena, t: TreeNode, d: nat, xs: seq<nat>)
  {
    d <= OpenDepth(t) && d <= |xs| && forall k :: 0 <= k < d ==> Conforms(a, OpenGroup(t, k), xs[k])
  }

  /** A path of instances along xs is one along any prefix of xs. */
  lemma PathAlong(a: Arena, t: TreeNode, d: nat, xs: seq<nat>, e: nat, ys: seq<nat>)
    requires PathConforms(a, t, d, xs) && e <= d && ys == xs[..e]
    ensures PathConforms(a, t, e, ys)
  {
    forall k | 0 <= k < e
      ensures Conforms(a, OpenGroup(t, k), ys[k])
    {
      assert ys[k] == xs[k];
    }
  }

  /** A path of instances extends by the open group one level further down. */
  lemma PathSnoc(a: Arena, t: TreeNode, d: nat, xs: seq<nat>, x: nat)
    requires PathConforms(a, t, d, xs) && |xs| == d && d < OpenDepth(t)
    requires Conforms(a, OpenGroup(t, d), x)
    ensures PathConforms(a, t, d + 1, xs + [x])
  {
    var ys := xs + [x];
    forall k | 0 <= k < d + 1
      ensures Conforms(a, OpenGroup(t, k), ys[k])
    {
      if k < d {
        assert ys[k] == xs[k];
      }
    }
  }

  /** A group appended at depth d is the open group at depth d + 1. */
  lemma {:induction false} AppendedOpen(t: TreeNode, d: nat, c: TreeNode)
    requires d < OpenDepth(t) && c.GroupNode?
    ensures d + 1 < OpenDepth(AppendAt(t, d, c)) && OpenGroup(AppendAt(t, d, c), d + 1) == c
  {
    var cs := t.children;
    if d > 0 {
      AppendedOpen(cs[|cs| - 1], d - 1, c);
    }
  }

  /** Appending an instance of y below the open instance of its parent keeps the path along xs. */
  lemma AppendPath(a: Arena, t: TreeNode, d: nat, c: TreeNode, xs: seq<nat>, y: nat)
    requires WF(a) && d < OpenDepth(t) && |xs| == d + 1 && PathConforms(a, t, d + 1, xs)
    requires forall e :: 0 < e <= d ==> xs[e] < |a| && a[xs[e]].parent == Some(xs[e - 1])
    requires y < |a| && a[y].parent == Some(xs[d]) && Conforms(a, c, y)
    ensures PathConforms(a, AppendAt(t, d, c), d + 1, xs)
  {
    AppendConforms(a, t, d, c, xs, y);
  }

  /** A segment matching a later child j of an open group lands in the instance of j's parent. */
  lemma PlaceLater(a: Arena, t: TreeNode, c: nat, j: nat, sn: TreeNode)
    requires WF(a) && c < |a| && 0 < j < |a| && a[c].children.None?
    requires a[j].parent.Some? && a[j].parent.value <= c < a[a[j].parent.value].extent
    requires PathConforms(a, t, a[c].level, Chain(a, c)) && NoEmptyGroup(t)
    requires Conforms(a, sn, j) && NoEmptyGroup(sn)
    ensures 0 < a[j].level <= a[c].level
    ensures var r := AppendAt(t, a[j].level - 1, sn);
      PathConforms(a, r, a[j].level, Chain(a, j)) && NoEmptyGroup(r)
  {
    var d := a[j].level - 1;
    LaterChain(a, c, j);
    PathAlong(a, t, a[c].level, Chain(a, c), d + 1, Chain(a, j));
    AppendPath(a, t, d, sn, Chain(a, j), j);
    AppendNoEmpty(t, d, sn);
  }

  /** A node whose parent holds the leaf c has its chain along c's. */
  lemma LaterChain(a: Arena, c: nat, j: nat)
    requires WF(a) && c < |a| && 0 < j < |a| && a[c].children.None?
    requires a[j].parent.Some? && a[j].parent.value <= c < a[a[j].parent.value].extent
    ensures 0 < a[j].level <= a[c].level && Chain(a, j) == Chain(a, c)[..a[j].level]
  {
    var p := a[j].parent.value;
    InParent(a, j);
    ChainPrefix(a, p, c);
    ChainOfChild(a, j);
    PrefixSnoc(Chain(a, c), a[p].level);
  }

  /**
   * A segment matching the first child of group p, where the groups above p are open, lands
   * in a new instance of p appended to the instance of p's parent.
   */
  lemma PlaceFirst(a: Arena, t: TreeNode, c: nat, p: nat, sn: TreeNode)
    requires WF(a) && c < |a| && 0 < p < |a|
    requires PathConforms(a, t, a[c].level, Chain(a, c)) && NoEmptyGroup(t)
    requires a[p].level <= a[c].level && Chain(a, c)[..a[p].level] == Chain(a, p)
    requires a[p].children.Some? && a[p].children.value != [] && Conforms(a, sn, a[p].children.value[0])
    requires NoEmptyGroup(sn)
    ensures var gc := GroupNode(a[p].name, [sn]);
            var r := AppendAt(t, a[p].level - 1, gc);
      a[p].level + 1 <= OpenDepth(r) && OpenGroup(r, a[p].level) == gc &&
      PathConforms(a, r, a[p].level + 1, Chain(a, p) + [p]) && NoEmptyGroup(r)
  {
    var lp := a[p].level;
    var gc := GroupNode(a[p].name, [sn]);
    var r := AppendAt(t, lp - 1, gc);
    assert 0 < lp && Conforms(a, gc, p) && NoEmptyGroup(gc) by {
      InParent(a, p);
      assert NodeShape(a, p);
      assert ChildAt(a, p, a[p].children.value, 0);
      assert gc.children[0] == sn;
    }
    PathAlong(a, t, a[c].level, Chain(a, c), lp, Chain(a, p));
    InParent(a, p);
    AppendPath(a, t, lp - 1, gc, Chain(a, p), p);
    AppendedOpen(t, lp - 1, gc);
    AppendNoEmpty(t, lp - 1, gc);
    PathSnoc(a, r, lp, Chain(a, p), p);
  }

  /** The tree and the stack size after an appended segment, in terms of Enter. */
  lemma StepPlaces(a: Arena, rx: (string, string) -> bool, st: TreeState, seg: Segment)
    requires WF(a) && Inv(a, st) && Appends(a, st, seg)
    ensures var e := Enter(a, st, Matched(a, st, seg));
            var o := Step(a, rx, st, seg).state;
      e.tree.Some? && 0 < e.depth <= OpenDepth(e.tree.value) && o.depth == e.depth &&
      o.tree == Some(AppendAt(e.tree.value, e.depth - 1, SegmentNode(seg)))
  {
  }

  /** The counters and the reachable list after an appended segment, in terms of Enter. */
  lemma StepCounts(a: Arena, rx: (string, string) -> bool, st: TreeState, seg: Segment)
    requires WF(a) && Inv(a, st) && Appends(a, st, seg)
    ensures var j := Matched(a, st, seg);
            var e := Enter(a, st, j);
            var o := Step(a, rx, st, seg);
      o.state.visits == e.visits[j := e.visits[j] + 1] &&
      (o.error.None? ==> o.state.specNodes == Next(a, o.state.visits, j)) &&
      (o.error.Some? ==> o.state.specNodes == st.specNodes)
  {
  }

  /** A group p that holds the leaf c, or whose parent holds it, has its chain along c's. */
  lemma GroupAbove(a: Arena, c: nat, p: nat)
    requires WF(a) && c < |a| && 0 < p < |a| && a[c].children.None?
    requires (p <= c < a[p].extent) ||
             (c < p && a[p].parent.Some? && a[p].parent.value <= c < a[a[p].parent.value].extent)
    ensures a[p].level <= a[c].level && Chain(a, c)[..a[p].level] == Chain(a, p)
  {
    if p <= c {
      ChainPrefix(a, p, c);
    } else {
      var q := a[p].parent.value;
      InParent(a, p);
      ChainPrefix(a, q, c);
      assert Chain(a, p) == Chain(a, q) + [q];
      PrefixSnoc(Chain(a, c), a[q].level);
    }
  }

  /** Extending a prefix by one element. */
  lemma PrefixSnoc<T>(s: seq<T>, n: nat)
    requires n < |s|
    ensures s[..n + 1] == s[..n] + [s[n]]
  {
  }

  /** Entering a later child only pops the open groups down to its level. */
  lemma EnterLater(a: Arena, st: TreeState, j: nat)
    requires WF(a) && Inv(a, st) && j < |a| && 0 < a[j].level <= st.depth && a[j].index != 0
    ensures Enter(a, st, j) == st.(depth := a[j].level)
  {
  }

  /** Entering the first child of group p, with p's level open, opens a new empty instance of p there. */
  lemma EnterFirst(a: Arena, st: TreeState, j: nat, p: nat)
    requires WF(a) && Inv(a, st) && j < |a| && a[j].index == 0 && a[j].parent == Some(p)
    requires 0 < p < |a| && a[j].level == a[p].level + 1 && a[p].level <= st.depth
    ensures 0 < a[p].level && st.tree.Some? && a[p].level - 1 < OpenDepth(st.tree.value)
    ensures Enter(a, st, j).depth == a[p].level + 1
    ensures Enter(a, st, j).tree == Some(AppendAt(st.tree.value, a[p].level - 1, GroupNode(a[p].name, [])))
  {
    InParent(a, p);
  }

  /** The chain of a node other than the root is its parent's chain and the parent. */
  lemma ChainOfChild(a: Arena, j: nat)
    requires WF(a) && 0 < j < |a|
    ensures a[j].parent.Some? && a[j].parent.value < j
    ensures Chain(a, j) == Chain(a, a[j].parent.value) + [a[j].parent.value]
  {
    InParent(a, j);
  }

  /** What is known before a match j of kind Kind after the leaf c, with the open groups along c's chain. */
  predicate BeforeEnter(a: Arena, st: TreeState, c: nat, j: nat, sn: TreeNode)
  {
    WF(a) && Inv(a, st) && c < |a| && j < |a| && a[c].children.None? &&
    st.tree.Some? && st.depth == a[c].level &&
    PathConforms(a, st.tree.value, a[c].level, Chain(a, c)) && NoEmptyGroup(st.tree.value) &&
    Kind(a, st.visits, c, j) && a[j].children.None? && a[j].parent.Some? &&
    (a[j].index == 0 ==> 0 < a[j].parent.value) &&
    Conforms(a, sn, j) && NoEmptyGroup(sn)
  }

  /** After entering j and appending its instance, the open groups follow j's chain. */
  predicate AfterEnter(a: Arena, st: TreeState, j: nat, sn: TreeNode)
    requires WF(a) && Inv(a, st) && j < |a| && 0 < a[j].level
  {
    var e := Enter(a, st, j);
    e.tree.Some? && e.depth == a[j].level &&
    var r := AppendAt(e.tree.value, e.depth - 1, sn);
    PathConforms(a, r, a[j].level, Chain(a, j)) && NoEmptyGroup(r)
  }

  /** A later child lands in the open instance of its parent. */
  lemma EnterPlaceLater(a: Arena, st: TreeState, c: nat, j: nat, sn: TreeNode)
    requires BeforeEnter(a, st, c, j, sn) && a[j].index != 0
    ensures 0 < a[j].level && AfterEnter(a, st, j, sn)
  {
    assert NodeShape(a, j);
    PlaceLater(a, st.tree.value, c, j, sn);
    EnterLater(a, st, j);
  }

  /** A first child lands in a new instance of its parent. */
  lemma EnterPlaceFirst(a: Arena, st: TreeState, c: nat, j: nat, sn: TreeNode)
    requires BeforeEnter(a, st, c, j, sn) && a[j].index == 0
    ensures 0 < a[j].level && AfterEnter(a, st, j, sn)
  {
    var t := st.tree.value;
    var p := a[j].parent.value;
    assert 0 < j && a[p].children.Some? && a[p].children.value != [] && a[p].children.value[0] == j by {
      assert NodeShape(a, j);
      assert ParentLink(a, p, j);
    }
    InParent(a, j);
    var lp := a[p].level;
    assert lp <= a[c].level && Chain(a, c)[..lp] == Chain(a, p) by {
      GroupAbove(a, c, p);
    }
    EnterFirst(a, st, j, p);
    AppendIntoNewGroup(t, lp - 1, a[p].name, sn);
    PlaceFirst(a, t, c, p, sn);
    ChainOfChild(a, j);
  }

  /** After a match, the open groups are instances of the new match's ancestors, and none is empty. */
  lemma StepOpen(a: Arena, rx: (string, string) -> bool, st: TreeState, c: nat, seg: Segment)
    requires Good(a, st, c) && c > 0 && Step(a, rx, st, seg).error.None?
    ensures Appends(a, st, seg)
    ensures var o := Step(a, rx, st, seg).state;
      o.tree.Some? && OpenConforms(a, o, Matched(a, st, seg)) && NoEmptyGroup(o.tree.value)
  {
    StepKind(a, rx, st, c, seg);
    StepPlaces(a, rx, st, seg);
    var j := Matched(a, st, seg);
    var o := Step(a, rx, st, seg).state;
    var sn := SegmentNode(seg);
    assert PathConforms(a, st.tree.value, a[c].level, Chain(a, c));
    assert BeforeEnter(a, st, c, j, sn);
    if a[j].index != 0 {
      EnterPlaceLater(a, st, c, j, sn);
    } else {
      EnterPlaceFirst(a, st, c, j, sn);
    }
    PathOpen(a, o, j);
  }

  /** Open groups that are instances along j's chain, down to j's level, are what OpenConforms asks. */
  lemma PathOpen(a: Arena, o: TreeState, j: nat)
    requires WF(a) && Inv(a, o) && j < |a| && o.tree.Some? && o.depth == a[j].level
    requires PathConforms(a, o.tree.value, a[j].level, Chain(a, j))
    ensures OpenConforms(a, o, j)
  {
  }

  /** One step of a run without error keeps the invariant and adds the segment to the tree. */
  lemma StepGood(a: Arena, rx: (string, string) -> bool, st: TreeState, c: nat, seg: Segment)
    requires Good(a, st, c) && Step(a, rx, st, seg).error.None?
    ensures FirstMatch(a, st.specNodes, seg.name).Some?
    ensures Good(a, Step(a, rx, st, seg).state, Matched(a, st, seg))
    ensures TreeSegments(Step(a, rx, st, seg).state) == TreeSegments(st) + [seg]
  {
    if c == 0 {
      StartStep(a, rx, seg);
    } else {
      StepOpen(a, rx, st, c, seg);
      StepCounters(a, rx, st, c, seg);
      StepVisits(a, rx, st, seg);
      StepKind(a, rx, st, c, seg);
      var j := Matched(a, st, seg);
      InParent(a, j);
      if a[j].index == 0 {
        InParent(a, a[j].parent.value);
      }
      StepTreeSegments(a, rx, st, seg);
    }
  }

  /** Splitting off the first element of the right operand of a concatenation. */
  lemma HeadTail<T>(x: seq<T>, s: seq<T>)
    requires s != []
    ensures x + [s[0]] + s[1..] == x + s
  {
    assert [s[0]] + s[1..] == s;
  }

  /** A run without error keeps the invariant throughout; it returns the node matched last. */
  lemma {:induction false} FeedGood(a: Arena, rx: (string, string) -> bool, st: TreeState, c: nat, segs: seq<Segment>)
    returns (last: nat)
    requires Good(a, st, c) && Feed(a, rx, st, segs).error.None?
    ensures Good(a, Feed(a, rx, st, segs).state, last)
    ensures segs == [] ==> last == c
    ensures TreeSegments(Feed(a, rx, st, segs).state) == TreeSegments(st) + segs
    decreases |segs|
  {
    if segs == [] {
      last := c;
    } else {
      StepGood(a, rx, st, c, segs[0]);
      var j := Matched(a, st, segs[0]);
      var o := Step(a, rx, st, segs[0]).state;
      last := FeedGood(a, rx, o, j, segs[1..]);
      HeadTail(TreeSegments(st), segs);
    }
  }

  /**
   * A run that reads all segments and ends without error builds a tree that is an instance of
   * the specification's root and holds exactly the segments read, in order, with no empty group.
   */
  lemma RunConforms(a: Arena, rx: (string, string) -> bool, segs: seq<Segment>)
    requires WF(a) && Checked(a) && Feed(a, rx, Start(a), segs).error.None?
    ensures var o := Feed(a, rx, Start(a), segs).state;
      (segs == [] ==> o.tree.None?) &&
      (segs != [] ==> o.tree.Some? && Conforms(a, o.tree.value, 0) && NoEmptyGroup(o.tree.value) &&
                      SegmentsOf(o.tree.value) == segs)
  {
    assert Good(a, Start(a), 0);
    var last := FeedGood(a, rx, Start(a), 0, segs);
    var o := Feed(a, rx, Start(a), segs).state;
    if segs != [] {
      assert last != 0;
      assert Chain(a, last)[0] == 0;
      assert OpenGroup(o.tree.value, 0) == o.tree.value;
    }
  }
}
