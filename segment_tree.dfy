/**
 * The SegmentTree object of lib/edifact/segment_tree.rb: the visit counters of the
 * specification nodes, the reachable nodes, the tree built so far and its stack of open
 * groups, updated in place by on_segment, checked by on_eof and driven by root.
 *
 * Each method is proved against the state machine of module Tree (Step, EofCheck), and root
 * against Drive, which reads segments off a token sequence as SegmentStream does and feeds
 * each one to Step as soon as it is read.
 */
module SegmentTrees {
  import opened Common
  import opened Nodes
  import Tokens
  import opened Segments
  import opened Grammar
  import opened Validation
  import opened Tree

  /**
   * root: the segments read one at a time off the pending tokens l, each fed to on_segment as
   * soon as it is read, then on_eof; a read error or an on_segment error ends the run there.
   */
  function Drive(a: Arena, rx: (string, string) -> bool, st: TreeState, l: Tokens.Lexed): (o: Outcome)
    requires WF(a) && Inv(a, st)
    ensures Inv(a, o.state)
    decreases |l.tokens|
  {
    match SegmentAt(l)
    case Failure(err) => Outcome(st, Some(err))
    case Success(Read(None, _)) => Outcome(st, EofCheck(a, st))
    case Success(Read(Some(s), rest)) =>
      var o := Step(a, rx, st, s);
      if o.error.Some? then o else Drive(a, rx, o.state, rest)
  }

  /** When the whole stream reads without error, root is the list of its segments fed in turn. */
  lemma {:induction false} DriveFeeds(a: Arena, rx: (string, string) -> bool, st: TreeState, l: Tokens.Lexed)
    requires WF(a) && Inv(a, st) && ReadAll(l).Success?
    ensures Drive(a, rx, st, l) == Feed(a, rx, st, ReadAll(l).value)
    decreases |l.tokens|
  {
    match SegmentAt(l)
    case Success(Read(None, _)) =>
    case Success(Read(Some(s), rest)) =>
      var segs := ReadAll(l).value;
      assert segs == [s] + ReadAll(rest).value;
      assert segs[0] == s && segs[1..] == ReadAll(rest).value;
      var o := Step(a, rx, st, s);
      if o.error.None? {
        DriveFeeds(a, rx, o.state, rest);
      }
  }

  /** A run without error has read the whole stream. */
  lemma {:induction false} DriveReadsAll(a: Arena, rx: (string, string) -> bool, st: TreeState, l: Tokens.Lexed)
    requires WF(a) && Inv(a, st) && Drive(a, rx, st, l).error.None?
    ensures ReadAll(l).Success?
    decreases |l.tokens|
  {
    match SegmentAt(l)
    case Success(Read(None, _)) =>
    case Success(Read(Some(s), rest)) =>
      DriveReadsAll(a, rx, Step(a, rx, st, s).state, rest);
  }

  /**
   * What root returns without error, from a fresh SegmentTree: no tree for an empty stream,
   * otherwise an instance of the specification holding every segment of the stream in order.
   */
  lemma RootConforms(a: Arena, rx: (string, string) -> bool, l: Tokens.Lexed)
    requires WF(a) && Checked(a) && Drive(a, rx, Start(a), l).error.None?
    ensures ReadAll(l).Success?
    ensures var o := Drive(a, rx, Start(a), l).state;
      (ReadAll(l).value == [] ==> o.tree.None?) &&
      (ReadAll(l).value != [] ==> o.tree.Some? && Conforms(a, o.tree.value, 0) &&
                                  SegmentsOf(o.tree.value) == ReadAll(l).value)
  {
    DriveReadsAll(a, rx, Start(a), l);
    DriveFeeds(a, rx, Start(a), l);
    RunConforms(a, rx, ReadAll(l).value);
  }

  class SegmentTree {
    const stream: SegmentStream
    /** The nodes of @spec_root_node in preorder. */
    const arena: Arena
    /** The matcher Regexp specifications are checked with. */
    const rx: (string, string) -> bool
    /** The visits counter of every specification node. */
    const visits: array<nat>
    /** @spec_nodes */
    var specNodes: seq<nat>
    /** @tree */
    var tree: Option<TreeNode>
    /** The size of @group_node_stack: the open groups are the last-child path of @tree. */
    var depth: nat

    predicate Valid()
      reads this, visits, stream, stream.tokens
    {
      Consistent() && stream.Valid()
    }

    /** The counters, reachable nodes, tree and stack agree with the specification. */
    predicate Consistent()
      reads this, visits
    {
      WF(arena) && Checked(arena) && visits.Length == |arena| && Inv(arena, State())
    }

    function State(): TreeState
      reads this, visits
    {
      TreeState(visits[..], specNodes, tree, depth)
    }

    /** SegmentTree.new over a specification already built and checked. */
    constructor(s: SegmentStream, a: Arena, rx: (string, string) -> bool)
      requires WF(a) && Checked(a) && s.Valid()
      ensures Valid() && fresh(visits)
      ensures stream == s && arena == a && this.rx == rx && State() == Start(a)
    {
      stream := s;
      arena := a;
      this.rx := rx;
      var v := new nat[|a|](j => 0);
      visits := v;
      assert v[..] == seq(|a|, j => 0);
      specNodes := Next(a, v[..], 0);
      tree := None;
      depth := 0;
    }

    /** on_segment */
    method OnSegment(seg: Segment) returns (err: Option<Error>)
      requires Consistent()
      modifies this`depth, this`tree, this`specNodes, visits
      ensures Consistent()
      ensures Outcome(State(), err) == Step(arena, rx, old(State()), seg)
    {
      var k := FindMatch(seg.name);
      if k.None? {
        return Some(Error(InvalidSegment, seg.pos));
      }
      var j := specNodes[k.value];
      if arena[j].level == 0 {
        depth := 0;
        return Some(Error(Hangs, NoPosition));
      }
      EnterNode(j);
      if depth == 0 {
        return Some(Error(NoOpenGroup, NoPosition));
      }
      err := AddSegment(j, seg);
    }

    /** The second half of on_segment: the segment node appended to the innermost open group, then validated. */
    method AddSegment(j: nat, seg: Segment) returns (err: Option<Error>)
      requires Consistent() && j < |arena| && depth > 0
      modifies this`tree, this`specNodes, visits
      ensures Consistent()
      ensures Outcome(State(), err) == Place(arena, rx, old(State()), j, seg)
    {
      tree := Some(AppendAt(tree.value, depth - 1, SegmentNode(seg)));
      visits[j] := visits[j] + 1;
      match ValidateSegment(arena[j].elements, seg, rx)
      case Fail(e) =>
        return Some(e);
      case Pass =>
        specNodes := Next(arena, visits[..], j);
        return None;
    }

    /** @spec_nodes.each with its early return: the first reachable node with the given name. */
    method FindMatch(name: string) returns (k: Option<nat>)
      requires Consistent()
      ensures k == FirstMatch(arena, specNodes, name)
    {
      var i := 0;
      while i < |specNodes| && arena[specNodes[i]].name != name
        invariant i <= |specNodes|
        invariant forall m :: 0 <= m < i ==> arena[specNodes[m]].name != name
      {
        i := i + 1;
      }
      if i == |specNodes| {
        return None;
      }
      return Some(i);
    }

    /**
     * The first half of on_segment for a match j below the root: the stack popped down to j's
     * level and, for a first child, one further pop, a new group for the parent and a new
     * repetition of the parent.
     */
    method EnterNode(j: nat)
      requires Consistent() && j < |arena| && arena[j].level > 0
      modifies this`depth, this`tree, visits
      ensures Consistent() && State() == Enter(arena, old(State()), j)
    {
      var n := arena[j];
      // until @group_node_stack.size <= spec_node.level
      PopTo(n.level);
      if n.index == 0 {
        // until @group_node_stack.size < spec_node.level
        PopTo(n.level - 1);
        assert NodeShape(arena, j);
        OpenGroup(n.parent.value);
      }
    }

    /** A new group node for p pushed on the stack, and a new repetition of p counted. */
    method OpenGroup(p: nat)
      requires Consistent() && p < |arena|
      modifies this`depth, this`tree, visits
      ensures Consistent() && depth == old(depth) + 1
      ensures var g := GroupNode(arena[p].name, []);
        tree == Some(if old(depth) == 0 then g else AppendAt(old(tree).value, old(depth) - 1, g))
      ensures visits[..] == Repeat(arena, old(visits[..]), p)
    {
      var g := GroupNode(arena[p].name, []);
      if depth == 0 {
        tree := Some(g);
      } else {
        tree := Some(AppendAt(tree.value, depth - 1, g));
      }
      depth := depth + 1;
      ResetCounters(p);
    }

    /** Pops of @group_node_stack until its size is at most level. */
    method PopTo(level: nat)
      requires Consistent()
      modifies this`depth
      ensures Consistent() && depth == (if old(depth) <= level then old(depth) else level)
    {
      while depth > level
        invariant Consistent()
        invariant if old(depth) <= level then depth == old(depth) else level <= depth
      {
        depth := depth - 1;
      }
    }

    /** spec_node.parent.visits += 1, and every counter below the parent back to 0. */
    method ResetCounters(p: nat)
      requires WF(arena) && visits.Length == |arena| && p < |arena|
      modifies visits
      ensures visits[..] == Repeat(arena, old(visits[..]), p)
    {
      ghost var v := visits[..];
      assert NodeShape(arena, p);
      visits[p] := visits[p] + 1;
      var i := p + 1;
      while i < arena[p].extent
        invariant p < i <= arena[p].extent
        invariant forall m :: 0 <= m < visits.Length ==>
          visits[m] == (if m == p then v[p] + 1 else if p < m < i then 0 else v[m])
      {
        visits[i] := 0;
        i := i + 1;
      }
    }

    /** on_eof */
    method OnEof() returns (err: Option<Error>)
      requires Consistent()
      ensures err == EofCheck(arena, State())
    {
      // @spec_nodes.any? {|node| node.min > node.visits}
      var k := 0;
      while k < |specNodes| && arena[specNodes[k]].min <= visits[specNodes[k]]
        invariant k <= |specNodes|
        invariant forall i :: 0 <= i < k ==> arena[specNodes[i]].min <= visits[specNodes[i]]
      {
        k := k + 1;
      }
      if k < |specNodes| {
        return Some(Error(PrematureEnd, NoPosition));
      }
      return None;
    }

    /**
     * root: on the first call, every segment of the stream through on_segment, then on_eof;
     * once a tree exists, it is returned as it is.
     */
    method Root() returns (r: Result<Option<TreeNode>, Error>)
      requires Valid()
      modifies this, visits, stream, stream.tokens
      ensures Valid()
      ensures old(tree).Some? ==> r == Success(old(tree)) && State() == old(State())
      ensures old(tree).None? ==>
        var o := Drive(arena, rx, old(State()), old(stream.Pending()));
        State() == o.state && r == (if o.error.Some? then Failure(o.error.value) else Success(o.state.tree))
    {
      if tree.Some? {
        return Success(tree);
      }
      var err := Run();
      if err.Some? {
        return Failure(err.value);
      }
      return Success(tree);
    }

    /** The loop of root: each segment read handed to on_segment, then on_eof at the end of the stream. */
    method Run() returns (err: Option<Error>)
      requires Valid()
      modifies this, visits, stream, stream.tokens
      ensures Valid()
      ensures Outcome(State(), err) == Drive(arena, rx, old(State()), old(stream.Pending()))
    {
      ghost var goal := Drive(arena, rx, State(), stream.Pending());
      var done := false;
      err := None;
      while !done
        invariant Valid()
        invariant done ==> Outcome(State(), err) == goal
        invariant !done ==> Drive(arena, rx, State(), stream.Pending()) == goal
        decreases !done, |stream.Pending().tokens|
      {
        done, err := Advance();
      }
    }

    /**
     * One turn of the loop of root: the next segment read and handed to on_segment, or on_eof
     * at the end of the stream; done when the run is over.
     */
    method Advance() returns (done: bool, err: Option<Error>)
      requires Valid()
      modifies this, visits, stream, stream.tokens
      ensures Valid()
      ensures done ==> Outcome(State(), err) == old(Drive(arena, rx, State(), stream.Pending()))
      ensures !done ==> Drive(arena, rx, State(), stream.Pending()) == old(Drive(arena, rx, State(), stream.Pending())) &&
                        |stream.Pending().tokens| < old(|stream.Pending().tokens|)
    {
      ghost var l := stream.Pending();
      ghost var goal := Drive(arena, rx, State(), l);
      var s := stream.ReadSegment();
      assert Consistent() && Drive(arena, rx, State(), l) == goal;
      if s.Failure? {
        return true, Some(s.error);
      }
      if s.value.None? {
        assert stream.Pending() == l;
        err := OnEof();
        return true, err;
      }
      err := OnSegment(s.value.value);
      return err.Some?, err;
    }
  }

  /** SegmentTree.new(segment_stream, message_specification): the specification is built first, and may be refused. */
  method NewSegmentTree(s: SegmentStream, spec: SpecDef, rx: (string, string) -> bool) returns (r: Result<SegmentTree, Error>)
    requires s.Valid()
    ensures Build(spec).Failure? ==> r == Failure(Build(spec).error)
    ensures Build(spec).Success? ==>
      r.Success? && fresh(r.value) && r.value.Valid() && r.value.stream == s && r.value.arena == Build(spec).value &&
      r.value.State() == Start(r.value.arena)
  {
    var a := Build(spec);
    if a.Failure? {
      return Failure(a.error);
    }
    BuildWellFormed(spec);
    var t := new SegmentTree(s, a.value, rx);
    return Success(t);
  }
}
