/**
 * on_segment as written in lib/edifact/segment_tree.rb:90-91: when a group repeats, only the
 * visit counters of the group's direct children are set back to 0. The counters of nodes
 * further down keep their values from the previous repetition, so a nested group whose
 * first segment was already seen looks as if it were still open, and a later segment of it
 * is accepted into the wrong group.
 *
 * The module models that version of the step, and exhibits an input that it accepts while
 * the tree it builds is not an instance of the specification. The model in Tree resets the
 * whole subtree (Tree.Repeat), and Tree.RunConforms proves every accepted run conforms.
 */
module TreeFinding {
  import opened Common
  import opened Nodes
  import opened Grammar
  import opened Validation
  import opened Tree

  /** spec_node.parent.visits += 1; spec_node.parent.segments.each {|s| s.visits = 0} */
  function ResetChildren(a: Arena, v: seq<nat>, p: nat): (r: seq<nat>)
    requires |v| == |a| && p < |a|
    ensures |r| == |a| && r[p] == v[p] + 1
    ensures forall j :: 0 <= j < |a| && j != p ==> r[j] == (if a[j].parent == Some(p) then 0 else v[j])
  {
    seq(|a|, j requires 0 <= j < |a| => if j == p then v[p] + 1 else if a[j].parent == Some(p) then 0 else v[j])
  }

  /** Enter with the counters of lib/edifact/segment_tree.rb:90-91. */
  function EnterAsWritten(a: Arena, st: TreeState, j: nat): (r: TreeState)
    requires WF(a) && Inv(a, st) && j < |a| && a[j].level > 0
    ensures Inv(a, r) && r.specNodes == st.specNodes && r.depth == DepthAfter(st.depth, a[j])
    ensures r.tree == Enter(a, st, j).tree
  {
    var n := a[j];
    var d1 := if st.depth <= n.level then st.depth else n.level;
    if n.index == 0 then
      assert NodeShape(a, j);
      var p := n.parent.value;
      var d2 := if d1 < n.level then d1 else n.level - 1;
      var g := GroupNode(a[p].name, []);
      var tree1 := if d2 == 0 then g else AppendAt(st.tree.value, d2 - 1, g);
      TreeState(ResetChildren(a, st.visits, p), st.specNodes, Some(tree1), d2 + 1)
    else
      st.(depth := d1)
  }

  /** on_segment as written. */
  function StepAsWritten(a: Arena, rx: (string, string) -> bool, st: TreeState, seg: Segment): (o: Outcome)
    requires WF(a) && Inv(a, st)
    ensures Inv(a, o.state)
  {
    match FirstMatch(a, st.specNodes, seg.name)
    case None => Outcome(st, Some(Error(InvalidSegment, seg.pos)))
    case Some(k) =>
      var j := st.specNodes[k];
      if a[j].level == 0 then
        Outcome(st.(depth := 0), Some(Error(Hangs, NoPosition)))
      else
        var e := EnterAsWritten(a, st, j);
        if e.depth == 0 then
          Outcome(e, Some(Error(NoOpenGroup, NoPosition)))
        else
          var st2 := e.(tree := Some(AppendAt(e.tree.value, e.depth - 1, SegmentNode(seg))),
                        visits := e.visits[j := e.visits[j] + 1]);
          match ValidateSegment(a[j].elements, seg, rx)
          case Fail(err) => Outcome(st2, Some(err))
          case Pass => Outcome(st2.(specNodes := Next(a, st2.visits, j)), None)
  }

  /** SegmentTree#root as written: every segment in turn, then on_eof. */
  function FeedAsWritten(a: Arena, rx: (string, string) -> bool, st: TreeState, segs: seq<Segment>): (o: Outcome)
    requires WF(a) && Inv(a, st)
    ensures Inv(a, o.state)
    decreases |segs|
  {
    if segs == [] then Outcome(st, EofCheck(a, st))
    else
      var o := StepAsWritten(a, rx, st, segs[0]);
      if o.error.Some? then o else FeedAsWritten(a, rx, o.state, segs[1..])
  }

  // ---------------------------------------------------------------------------------------
  // The input that shows it

  function Leaf(name: string, max: int, parent: nat, index: nat, level: nat, at: nat): SpecNode
  {
    SpecNode(name, 1, max, [], Some(parent), index, level, None, at + 1)
  }

  /**
   * MSG { ABC, SG0 (max 99) { DEF, SG1 { GHI, JKL (max 5) } } }, in preorder:
   * 0 MSG, 1 ABC, 2 SG0, 3 DEF, 4 SG1, 5 GHI, 6 JKL.
   */
  function Nested(): Arena
  {
    [SpecNode("MSG", 1, 1, [], None, 0, 0, Some([1, 2]), 7),
     Leaf("ABC", 1, 0, 0, 1, 1),
     SpecNode("SG0", 1, 99, [], Some(0), 1, 1, Some([3, 4]), 7),
     Leaf("DEF", 1, 2, 0, 2, 3),
     SpecNode("SG1", 1, 1, [], Some(2), 1, 2, Some([5, 6]), 7),
     Leaf("GHI", 1, 4, 0, 3, 5),
     Leaf("JKL", 5, 4, 1, 3, 6)]
  }

  lemma NestedShape()
    ensures WF(Nested()) && Checked(Nested())
  {
    var a := Nested();
    assert NodeShape(a, 0) by {
      assert ChildAt(a, 0, [1, 2], 0) && ChildAt(a, 0, [1, 2], 1);
    }
    assert NodeShape(a, 2) by {
      assert ChildAt(a, 2, [3, 4], 0) && ChildAt(a, 2, [3, 4], 1);
    }
    assert NodeShape(a, 4) by {
      assert ChildAt(a, 4, [5, 6], 0) && ChildAt(a, 4, [5, 6], 1);
    }
    assert NodeShape(a, 1) && NodeShape(a, 3) && NodeShape(a, 5) && NodeShape(a, 6);
  }

  /** A segment without elements on line l. */
  function Seg(name: string, l: int): Segment
  {
    Segment(Position(l, 1), name, [])
  }

  /** ABC DEF GHI JKL DEF JKL: the second JKL belongs to no open SG1. */
  function Input(): seq<Segment>
  {
    [Seg("ABC", 1), Seg("DEF", 2), Seg("GHI", 3), Seg("JKL", 4), Seg("DEF", 5), Seg("JKL", 6)]
  }

  /** A segment without elements always passes its own checks. */
  lemma NoElementsPass(specs: seq<Option<ElementSpecValue>>, seg: Segment, rx: (string, string) -> bool)
    requires seg.elements == []
    ensures ValidateSegment(specs, seg, rx) == Pass
  {
    assert ElementChecks(specs, seg.elements, rx) == [];
  }

  /** The outcome of a step that matches node j = st.specNodes[k] below the root and raises no error. */
  lemma StepAccepts(a: Arena, rx: (string, string) -> bool, st: TreeState, seg: Segment, k: nat, j: nat,
                    e: TreeState, v: seq<nat>, next: seq<nat>, t: TreeNode)
    requires WF(a) && Inv(a, st) && seg.elements == [] && FirstMatch(a, st.specNodes, seg.name) == Some(k)
    requires st.specNodes[k] == j && a[j].level > 0 && e == Enter(a, st, j) && e.depth > 0
    requires v == e.visits[j := e.visits[j] + 1] && next == Next(a, v, j)
    requires t == AppendAt(e.tree.value, e.depth - 1, SegmentNode(seg))
    ensures Step(a, rx, st, seg) == Outcome(TreeState(v, next, Some(t), e.depth), None)
  {
    NoElementsPass(a[j].elements, seg, rx);
  }

  /** The same for the step as written. */
  lemma StepAsWrittenAccepts(a: Arena, rx: (string, string) -> bool, st: TreeState, seg: Segment, k: nat, j: nat,
                             e: TreeState, v: seq<nat>, next: seq<nat>, t: TreeNode)
    requires WF(a) && Inv(a, st) && seg.elements == [] && FirstMatch(a, st.specNodes, seg.name) == Some(k)
    requires st.specNodes[k] == j && a[j].level > 0 && e == EnterAsWritten(a, st, j) && e.depth > 0
    requires v == e.visits[j := e.visits[j] + 1] && next == Next(a, v, j)
    requires t == AppendAt(e.tree.value, e.depth - 1, SegmentNode(seg))
    ensures StepAsWritten(a, rx, st, seg) == Outcome(TreeState(v, next, Some(t), e.depth), None)
  {
    NoElementsPass(a[j].elements, seg, rx);
  }

  /** Where the two ways of resetting the counters agree, so do the two versions of Enter. */
  lemma SameEnter(a: Arena, st: TreeState, j: nat)
    requires WF(a) && Inv(a, st) && j < |a| && a[j].level > 0
    requires a[j].index == 0 ==> (a[j].parent.Some? && a[j].parent.value < |a| &&
      ResetChildren(a, st.visits, a[j].parent.value) == Repeat(a, st.visits, a[j].parent.value))
    ensures EnterAsWritten(a, st, j) == Enter(a, st, j)
  {
  }

  // The trees built along the way.
  function Abc(): TreeNode { SegmentNode(Seg("ABC", 1)) }
  function Def(): TreeNode { SegmentNode(Seg("DEF", 2)) }
  function Ghi(): TreeNode { SegmentNode(Seg("GHI", 3)) }
  function Jkl(): TreeNode { SegmentNode(Seg("JKL", 4)) }
  function Def2(): TreeNode { SegmentNode(Seg("DEF", 5)) }
  function Jkl2(): TreeNode { SegmentNode(Seg("JKL", 6)) }
  function Sg1(): TreeNode { GroupNode("SG1", [Ghi(), Jkl()]) }
  function Sg0(): TreeNode { GroupNode("SG0", [Def(), Sg1()]) }

  // The states after each segment.
  function S1(): TreeState { TreeState([1, 1, 0, 0, 0, 0, 0], [3], Some(GroupNode("MSG", [Abc()])), 1) }
  function S2(): TreeState
  {
    TreeState([1, 1, 1, 1, 0, 0, 0], [5], Some(GroupNode("MSG", [Abc(), GroupNode("SG0", [Def()])])), 2)
  }
  function S3(): TreeState
  {
    TreeState([1, 1, 1, 1, 1, 1, 0], [6], Some(GroupNode("MSG", [Abc(), GroupNode("SG0", [Def(), GroupNode("SG1", [Ghi()])])])), 3)
  }
  function S4(): TreeState { TreeState([1, 1, 1, 1, 1, 1, 1], [6, 3], Some(GroupNode("MSG", [Abc(), Sg0()])), 3) }
  /** After the second DEF with every counter of SG0's subtree reset: only GHI may follow. */
  function S5(): TreeState
  {
    TreeState([1, 1, 2, 1, 0, 0, 0], [5], Some(GroupNode("MSG", [Abc(), Sg0(), GroupNode("SG0", [Def2()])])), 2)
  }
  /** After the second DEF as written: GHI and JKL keep their counts, and JKL looks reachable. */
  function S5AsWritten(): TreeState
  {
    TreeState([1, 1, 2, 1, 0, 1, 1], [6, 5, 3], Some(GroupNode("MSG", [Abc(), Sg0(), GroupNode("SG0", [Def2()])])), 2)
  }
  /** The second JKL lands directly in the second SG0. */
  function S6AsWritten(): TreeState
  {
    TreeState([1, 1, 2, 1, 0, 1, 2], [6, 5, 3], Some(GroupNode("MSG", [Abc(), Sg0(), GroupNode("SG0", [Def2(), Jkl2()])])), 2)
  }

  // Each step in turn: the match, the Enter, the new counters' next, the append.

  lemma EnterAbc(a: Arena)
    requires a == Nested()
    ensures WF(a) && Inv(a, Start(a))
    ensures Start(a).specNodes == [1]
    ensures Enter(a, Start(a), 1) == TreeState([1, 0, 0, 0, 0, 0, 0], [1], Some(GroupNode("MSG", [])), 1)
    ensures EnterAsWritten(a, Start(a), 1) == Enter(a, Start(a), 1)
  {
    NestedShape();
    assert Start(Nested()).specNodes == [1];
    var st := Start(a);
    assert Repeat(a, st.visits, 0) == [1, 0, 0, 0, 0, 0, 0];
    assert ResetChildren(a, st.visits, 0) == [1, 0, 0, 0, 0, 0, 0];
    SameEnter(a, st, 1);
  }

  lemma NextAbc(a: Arena)
    requires a == Nested()
    ensures WF(a) && FirstMatch(a, [1], "ABC") == Some(0)
    ensures Next(a, [1, 1, 0, 0, 0, 0, 0], 1) == [3]
  {
    NestedShape();
    assert FirstMatch(Nested(), [1], "ABC") == Some(0);
    assert Next(Nested(), [1, 1, 0, 0, 0, 0, 0], 1) == [3];
  }

  lemma StepAbc(a: Arena, rx: (string, string) -> bool)
    requires a == Nested()
    ensures WF(a) && Inv(a, Start(a))
    ensures Step(a, rx, Start(a), Seg("ABC", 1)) == Outcome(S1(), None)
  {
    EnterAbc(a);
    NextAbc(a);
    var e := TreeState([1, 0, 0, 0, 0, 0, 0], [1], Some(GroupNode("MSG", [])), 1);
    assert [] + [Abc()] == [Abc()];
    StepAccepts(a, rx, Start(a), Seg("ABC", 1), 0, 1, e, [1, 1, 0, 0, 0, 0, 0], [3], GroupNode("MSG", [Abc()]));
  }

  lemma StepAbcAsWritten(a: Arena, rx: (string, string) -> bool)
    requires a == Nested()
    ensures WF(a) && Inv(a, Start(a))
    ensures StepAsWritten(a, rx, Start(a), Seg("ABC", 1)) == Outcome(S1(), None)
  {
    EnterAbc(a);
    NextAbc(a);
    var e := TreeState([1, 0, 0, 0, 0, 0, 0], [1], Some(GroupNode("MSG", [])), 1);
    assert [] + [Abc()] == [Abc()];
    StepAsWrittenAccepts(a, rx, Start(a), Seg("ABC", 1), 0, 1, e, [1, 1, 0, 0, 0, 0, 0], [3], GroupNode("MSG", [Abc()]));
  }

  lemma EnterDef(a: Arena)
    requires a == Nested()
    ensures WF(a) && Inv(a, S1())
    ensures Enter(a, S1(), 3) == TreeState([1, 1, 1, 0, 0, 0, 0], [3], Some(GroupNode("MSG", [Abc(), GroupNode("SG0", [])])), 2)
    ensures EnterAsWritten(a, S1(), 3) == Enter(a, S1(), 3)
  {
    NestedShape();
    assert Repeat(a, S1().visits, 2) == [1, 1, 1, 0, 0, 0, 0];
    assert ResetChildren(a, S1().visits, 2) == [1, 1, 1, 0, 0, 0, 0];
    SameEnter(a, S1(), 3);
    assert [Abc()] + [GroupNode("SG0", [])] == [Abc(), GroupNode("SG0", [])];
  }

  lemma NextDef(a: Arena)
    requires a == Nested()
    ensures WF(a) && FirstMatch(a, [3], "DEF") == Some(0)
    ensures Next(a, [1, 1, 1, 1, 0, 0, 0], 3) == [5]
  {
    NestedShape();
    assert FirstMatch(Nested(), [3], "DEF") == Some(0);
    assert Next(Nested(), [1, 1, 1, 1, 0, 0, 0], 3) == [5];
  }

  lemma AppendDef()
    ensures AppendAt(GroupNode("MSG", [Abc(), GroupNode("SG0", [])]), 1, Def()) == S2().tree.value
  {
    assert [Abc(), GroupNode("SG0", [])][..1] == [Abc()];
    assert [] + [Def()] == [Def()];
  }

  lemma StepDef(a: Arena, rx: (string, string) -> bool)
    requires a == Nested()
    ensures WF(a) && Inv(a, S1())
    ensures Step(a, rx, S1(), Seg("DEF", 2)) == Outcome(S2(), None)
  {
    EnterDef(a);
    NextDef(a);
    AppendDef();
    var e := TreeState([1, 1, 1, 0, 0, 0, 0], [3], Some(GroupNode("MSG", [Abc(), GroupNode("SG0", [])])), 2);
    StepAccepts(a, rx, S1(), Seg("DEF", 2), 0, 3, e, [1, 1, 1, 1, 0, 0, 0], [5], S2().tree.value);
  }

  lemma StepDefAsWritten(a: Arena, rx: (string, string) -> bool)
    requires a == Nested()
    ensures WF(a) && Inv(a, S1())
    ensures StepAsWritten(a, rx, S1(), Seg("DEF", 2)) == Outcome(S2(), None)
  {
    EnterDef(a);
    NextDef(a);
    AppendDef();
    var e := TreeState([1, 1, 1, 0, 0, 0, 0], [3], Some(GroupNode("MSG", [Abc(), GroupNode("SG0", [])])), 2);
    StepAsWrittenAccepts(a, rx, S1(), Seg("DEF", 2), 0, 3, e, [1, 1, 1, 1, 0, 0, 0], [5], S2().tree.value);
  }

  function Open3(): TreeNode { GroupNode("MSG", [Abc(), GroupNode("SG0", [Def(), GroupNode("SG1", [])])]) }

  lemma EnterGhi(a: Arena)
    requires a == Nested()
    ensures WF(a) && Inv(a, S2())
    ensures Enter(a, S2(), 5) == TreeState([1, 1, 1, 1, 1, 0, 0], [5], Some(Open3()), 3)
    ensures EnterAsWritten(a, S2(), 5) == Enter(a, S2(), 5)
  {
    NestedShape();
    assert Repeat(a, S2().visits, 4) == [1, 1, 1, 1, 1, 0, 0];
    assert ResetChildren(a, S2().visits, 4) == [1, 1, 1, 1, 1, 0, 0];
    SameEnter(a, S2(), 5);
    var g := GroupNode("SG0", [Def(), GroupNode("SG1", [])]);
    assert AppendAt(GroupNode("SG0", [Def()]), 0, GroupNode("SG1", [])) == g by {
      assert [Def()] + [GroupNode("SG1", [])] == g.children;
    }
    assert [Abc(), GroupNode("SG0", [Def()])][..1] == [Abc()];
    assert [Abc()] + [g] == [Abc(), g];
  }

  lemma NextGhi(a: Arena)
    requires a == Nested()
    ensures WF(a) && FirstMatch(a, [5], "GHI") == Some(0)
    ensures Next(a, [1, 1, 1, 1, 1, 1, 0], 5) == [6]
  {
    NestedShape();
    assert FirstMatch(Nested(), [5], "GHI") == Some(0);
    assert Next(Nested(), [1, 1, 1, 1, 1, 1, 0], 5) == [6];
  }

  lemma AppendGhi()
    ensures AppendAt(Open3(), 2, Ghi()) == S3().tree.value
  {
    assert AppendAt(GroupNode("SG1", []), 0, Ghi()) == GroupNode("SG1", [Ghi()]) by {
      assert [] + [Ghi()] == [Ghi()];
    }
    var g := GroupNode("SG0", [Def(), GroupNode("SG1", [Ghi()])]);
    assert AppendAt(GroupNode("SG0", [Def(), GroupNode("SG1", [])]), 1, Ghi()) == g by {
      assert [Def(), GroupNode("SG1", [])][..1] == [Def()];
      assert [Def()] + [GroupNode("SG1", [Ghi()])] == g.children;
    }
    assert [Abc(), GroupNode("SG0", [Def(), GroupNode("SG1", [])])][..1] == [Abc()];
    assert [Abc()] + [g] == [Abc(), g];
  }

  lemma StepGhi(a: Arena, rx: (string, string) -> bool)
    requires a == Nested()
    ensures WF(a) && Inv(a, S2())
    ensures Step(a, rx, S2(), Seg("GHI", 3)) == Outcome(S3(), None)
  {
    EnterGhi(a);
    NextGhi(a);
    AppendGhi();
    var e := TreeState([1, 1, 1, 1, 1, 0, 0], [5], Some(Open3()), 3);
    StepAccepts(a, rx, S2(), Seg("GHI", 3), 0, 5, e, [1, 1, 1, 1, 1, 1, 0], [6], S3().tree.value);
  }

  lemma StepGhiAsWritten(a: Arena, rx: (string, string) -> bool)
    requires a == Nested()
    ensures WF(a) && Inv(a, S2())
    ensures StepAsWritten(a, rx, S2(), Seg("GHI", 3)) == Outcome(S3(), None)
  {
    EnterGhi(a);
    NextGhi(a);
    AppendGhi();
    var e := TreeState([1, 1, 1, 1, 1, 0, 0], [5], Some(Open3()), 3);
    StepAsWrittenAccepts(a, rx, S2(), Seg("GHI", 3), 0, 5, e, [1, 1, 1, 1, 1, 1, 0], [6], S3().tree.value);
  }

  lemma NextJkl(a: Arena)
    requires a == Nested()
    ensures WF(a) && Inv(a, S3()) && FirstMatch(a, [6], "JKL") == Some(0)
    ensures Next(a, [1, 1, 1, 1, 1, 1, 1], 6) == [6, 3]
    ensures Enter(a, S3(), 6) == S3() && EnterAsWritten(a, S3(), 6) == S3()
  {
    NestedShape();
    assert FirstMatch(Nested(), [6], "JKL") == Some(0);
    assert Next(Nested(), [1, 1, 1, 1, 1, 1, 1], 6) == [6, 3];
    assert Enter(Nested(), S3(), 6) == S3();
    assert EnterAsWritten(Nested(), S3(), 6) == S3();
  }

  lemma AppendJkl()
    ensures AppendAt(S3().tree.value, 2, Jkl()) == S4().tree.value
  {
    assert AppendAt(GroupNode("SG1", [Ghi()]), 0, Jkl()) == Sg1() by {
      assert [Ghi()] + [Jkl()] == [Ghi(), Jkl()];
    }
    assert AppendAt(GroupNode("SG0", [Def(), GroupNode("SG1", [Ghi()])]), 1, Jkl()) == Sg0() by {
      assert [Def(), GroupNode("SG1", [Ghi()])][..1] == [Def()];
      assert [Def()] + [Sg1()] == [Def(), Sg1()];
    }
    assert [Abc(), GroupNode("SG0", [Def(), GroupNode("SG1", [Ghi()])])][..1] == [Abc()];
    assert [Abc()] + [Sg0()] == [Abc(), Sg0()];
  }

  lemma StepJkl(a: Arena, rx: (string, string) -> bool)
    requires a == Nested()
    ensures WF(a) && Inv(a, S3())
    ensures Step(a, rx, S3(), Seg("JKL", 4)) == Outcome(S4(), None)
  {
    NextJkl(a);
    AppendJkl();
    StepAccepts(a, rx, S3(), Seg("JKL", 4), 0, 6, S3(), [1, 1, 1, 1, 1, 1, 1], [6, 3], S4().tree.value);
  }

  lemma StepJklAsWritten(a: Arena, rx: (string, string) -> bool)
    requires a == Nested()
    ensures WF(a) && Inv(a, S3())
    ensures StepAsWritten(a, rx, S3(), Seg("JKL", 4)) == Outcome(S4(), None)
  {
    NextJkl(a);
    AppendJkl();
    StepAsWrittenAccepts(a, rx, S3(), Seg("JKL", 4), 0, 6, S3(), [1, 1, 1, 1, 1, 1, 1], [6, 3], S4().tree.value);
  }

  function Open5(): TreeNode { GroupNode("MSG", [Abc(), Sg0(), GroupNode("SG0", [])]) }

  /** The second DEF repeats SG0: here the two versions part. */
  lemma EnterDef2(a: Arena)
    requires a == Nested()
    ensures WF(a) && Inv(a, S4())
    ensures Enter(a, S4(), 3) == TreeState([1, 1, 2, 0, 0, 0, 0], [6, 3], Some(Open5()), 2)
    ensures EnterAsWritten(a, S4(), 3) == TreeState([1, 1, 2, 0, 0, 1, 1], [6, 3], Some(Open5()), 2)
  {
    NestedShape();
    assert Repeat(a, S4().visits, 2) == [1, 1, 2, 0, 0, 0, 0];
    assert ResetChildren(a, S4().visits, 2) == [1, 1, 2, 0, 0, 1, 1];
    assert [Abc(), Sg0()] + [GroupNode("SG0", [])] == [Abc(), Sg0(), GroupNode("SG0", [])];
  }

  lemma NextDef2(a: Arena)
    requires a == Nested()
    ensures WF(a) && FirstMatch(a, [6, 3], "DEF") == Some(1)
    ensures Next(a, [1, 1, 2, 1, 0, 0, 0], 3) == [5]
  {
    NestedShape();
    assert FirstMatch(Nested(), [6, 3], "DEF") == Some(1);
    NextAfterRepeat();
  }

  lemma NextAfterRepeat()
    ensures WF(Nested()) && Next(Nested(), [1, 1, 2, 1, 0, 0, 0], 3) == [5]
  {
    NestedShape();
  }

  /** With the stale counts of GHI and JKL, JKL is offered first after the second DEF. */
  lemma NextDef2AsWritten(a: Arena)
    requires a == Nested()
    ensures WF(a) && FirstMatch(a, [6, 3], "DEF") == Some(1)
    ensures Next(a, [1, 1, 2, 1, 0, 1, 1], 3) == [6, 5, 3]
  {
    NestedShape();
    assert FirstMatch(Nested(), [6, 3], "DEF") == Some(1);
    assert Next(Nested(), [1, 1, 2, 1, 0, 1, 1], 3) == [6, 5, 3];
  }

  lemma AppendDef2()
    ensures AppendAt(Open5(), 1, Def2()) == S5().tree.value
  {
    assert [Abc(), Sg0(), GroupNode("SG0", [])][..2] == [Abc(), Sg0()];
    assert [] + [Def2()] == [Def2()];
  }

  lemma StepDef2(a: Arena, rx: (string, string) -> bool)
    requires a == Nested()
    ensures WF(a) && Inv(a, S4())
    ensures Step(a, rx, S4(), Seg("DEF", 5)) == Outcome(S5(), None)
  {
    EnterDef2(a);
    NextDef2(a);
    AppendDef2();
    StepAccepts(a, rx, S4(), Seg("DEF", 5), 1, 3, TreeState([1, 1, 2, 0, 0, 0, 0], [6, 3], Some(Open5()), 2),
                [1, 1, 2, 1, 0, 0, 0], [5], S5().tree.value);
  }

  lemma StepDef2AsWritten(a: Arena, rx: (string, string) -> bool)
    requires a == Nested()
    ensures WF(a) && Inv(a, S4())
    ensures StepAsWritten(a, rx, S4(), Seg("DEF", 5)) == Outcome(S5AsWritten(), None)
  {
    EnterDef2(a);
    NextDef2AsWritten(a);
    AppendDef2();
    StepAsWrittenAccepts(a, rx, S4(), Seg("DEF", 5), 1, 3, TreeState([1, 1, 2, 0, 0, 1, 1], [6, 3], Some(Open5()), 2),
                         [1, 1, 2, 1, 0, 1, 1], [6, 5, 3], S5().tree.value);
  }

  /** The second JKL: refused after the full reset, accepted into SG0 as written. */
  lemma NextJkl2(a: Arena)
    requires a == Nested()
    ensures WF(a) && Inv(a, S5()) && Inv(a, S5AsWritten())
    ensures FirstMatch(a, [5], "JKL").None? && FirstMatch(a, [6, 5, 3], "JKL") == Some(0)
    ensures Next(a, [1, 1, 2, 1, 0, 1, 2], 6) == [6, 5, 3]
    ensures EnterAsWritten(a, S5AsWritten(), 6) == S5AsWritten()
  {
    NestedShape();
    assert FirstMatch(Nested(), [5], "JKL").None?;
    assert FirstMatch(Nested(), [6, 5, 3], "JKL") == Some(0);
    assert Next(Nested(), [1, 1, 2, 1, 0, 1, 2], 6) == [6, 5, 3];
    assert EnterAsWritten(Nested(), S5AsWritten(), 6) == S5AsWritten();
  }

  lemma AppendJkl2()
    ensures AppendAt(S5AsWritten().tree.value, 1, Jkl2()) == S6AsWritten().tree.value
  {
    assert [Abc(), Sg0(), GroupNode("SG0", [Def2()])][..2] == [Abc(), Sg0()];
    assert [Def2()] + [Jkl2()] == [Def2(), Jkl2()];
  }

  lemma StepJkl2(a: Arena, rx: (string, string) -> bool)
    requires a == Nested()
    ensures WF(a) && Inv(a, S5())
    ensures Step(a, rx, S5(), Seg("JKL", 6)) == Outcome(S5(), Some(Error(InvalidSegment, Position(6, 1))))
  {
    NextJkl2(a);
  }

  lemma StepJkl2AsWritten(a: Arena, rx: (string, string) -> bool)
    requires a == Nested()
    ensures WF(a) && Inv(a, S5AsWritten())
    ensures StepAsWritten(a, rx, S5AsWritten(), Seg("JKL", 6)) == Outcome(S6AsWritten(), None)
  {
    NextJkl2(a);
    AppendJkl2();
    StepAsWrittenAccepts(a, rx, S5AsWritten(), Seg("JKL", 6), 0, 6, S5AsWritten(), [1, 1, 2, 1, 0, 1, 2], [6, 5, 3],
                         S6AsWritten().tree.value);
  }

  // ---------------------------------------------------------------------------------------
  // The whole run

  /** Feed moves on to the rest of the input after a step without error. */
  lemma FeedOn(a: Arena, rx: (string, string) -> bool, st: TreeState, segs: seq<Segment>, st2: TreeState)
    requires WF(a) && Inv(a, st) && Inv(a, st2) && segs != [] && Step(a, rx, st, segs[0]) == Outcome(st2, None)
    ensures Feed(a, rx, st, segs) == Feed(a, rx, st2, segs[1..])
  {
  }

  /** The same for FeedAsWritten. */
  lemma FeedAsWrittenOn(a: Arena, rx: (string, string) -> bool, st: TreeState, segs: seq<Segment>, st2: TreeState)
    requires WF(a) && Inv(a, st) && Inv(a, st2) && segs != [] && StepAsWritten(a, rx, st, segs[0]) == Outcome(st2, None)
    ensures FeedAsWritten(a, rx, st, segs) == FeedAsWritten(a, rx, st2, segs[1..])
  {
  }

  /** The suffixes of the input, one segment shorter each time. */
  lemma InputSuffixes()
    ensures Input()[1..] == [Seg("DEF", 2), Seg("GHI", 3), Seg("JKL", 4), Seg("DEF", 5), Seg("JKL", 6)]
    ensures Input()[1..][1..] == [Seg("GHI", 3), Seg("JKL", 4), Seg("DEF", 5), Seg("JKL", 6)]
    ensures Input()[1..][1..][1..] == [Seg("JKL", 4), Seg("DEF", 5), Seg("JKL", 6)]
    ensures Input()[1..][1..][1..][1..] == [Seg("DEF", 5), Seg("JKL", 6)]
    ensures Input()[1..][1..][1..][1..][1..] == [Seg("JKL", 6)]
  {
  }

  /** Up to the second JKL the corrected run accepts, and then it refuses JKL at its position. */
  lemma CorrectedRun(a: Arena, rx: (string, string) -> bool)
    requires a == Nested()
    ensures WF(a) && Feed(a, rx, Start(a), Input()).error == Some(Error(InvalidSegment, Position(6, 1)))
  {
    InputSuffixes();
    var s := Input();
    StepAbc(a, rx);
    FeedOn(a, rx, Start(a), s, S1());
    StepDef(a, rx);
    FeedOn(a, rx, S1(), s[1..], S2());
    StepGhi(a, rx);
    FeedOn(a, rx, S2(), s[1..][1..], S3());
    StepJkl(a, rx);
    FeedOn(a, rx, S3(), s[1..][1..][1..], S4());
    StepDef2(a, rx);
    FeedOn(a, rx, S4(), s[1..][1..][1..][1..], S5());
    StepJkl2(a, rx);
  }

  /** As written, the first three segments go as in the corrected run. */
  lemma AsWrittenStart(a: Arena, rx: (string, string) -> bool)
    requires a == Nested()
    ensures WF(a) && Inv(a, S3())
    ensures FeedAsWritten(a, rx, Start(a), Input()) == FeedAsWritten(a, rx, S3(), Input()[1..][1..][1..])
  {
    InputSuffixes();
    var s := Input();
    StepAbcAsWritten(a, rx);
    FeedAsWrittenOn(a, rx, Start(a), s, S1());
    StepDefAsWritten(a, rx);
    FeedAsWrittenOn(a, rx, S1(), s[1..], S2());
    StepGhiAsWritten(a, rx);
    FeedAsWrittenOn(a, rx, S2(), s[1..][1..], S3());
  }

  /** As written, the last segment is accepted and on_eof finds every minimum met. */
  lemma AsWrittenEnd(a: Arena, rx: (string, string) -> bool)
    requires a == Nested()
    ensures WF(a) && Inv(a, S5AsWritten())
    ensures FeedAsWritten(a, rx, S5AsWritten(), [Seg("JKL", 6)]) == Outcome(S6AsWritten(), None)
  {
    StepJkl2AsWritten(a, rx);
    assert [Seg("JKL", 6)][1..] == [];
    FeedAsWrittenOn(a, rx, S5AsWritten(), [Seg("JKL", 6)], S6AsWritten());
    assert EofCheck(a, S6AsWritten()).None?;
  }

  /** As written, every segment is accepted and on_eof finds nothing missing. */
  lemma AsWrittenRun(a: Arena, rx: (string, string) -> bool)
    requires a == Nested()
    ensures WF(a) && FeedAsWritten(a, rx, Start(a), Input()) == Outcome(S6AsWritten(), None)
  {
    AsWrittenStart(a, rx);
    InputSuffixes();
    var s := Input();
    StepJklAsWritten(a, rx);
    FeedAsWrittenOn(a, rx, S3(), s[1..][1..][1..], S4());
    StepDef2AsWritten(a, rx);
    FeedAsWrittenOn(a, rx, S4(), s[1..][1..][1..][1..], S5AsWritten());
    AsWrittenEnd(a, rx);
  }

  /** A second SG0 holding JKL directly is no instance of SG0, whose children are DEF and SG1. */
  lemma StraySg0(a: Arena)
    requires a == Nested()
    ensures !Conforms(a, GroupNode("SG0", [Def2(), Jkl2()]), 2)
  {
    var sg0 := GroupNode("SG0", [Def2(), Jkl2()]);
    var ch := a[2].children.value;
    assert ch == [3, 4];
    forall i | 0 <= i < |ch|
      ensures !Conforms(a, Jkl2(), ch[i])
    {
      assert ch[i] == 3 || ch[i] == 4;
    }
    assert sg0.children[1] == Jkl2();
  }

  /** The tree the as-written run builds is not an instance of MSG. */
  lemma StrayJkl(a: Arena)
    requires a == Nested()
    ensures !Conforms(a, S6AsWritten().tree.value, 0)
  {
    var sg0 := GroupNode("SG0", [Def2(), Jkl2()]);
    var cs := [Abc(), Sg0(), sg0];
    StraySg0(a);
    var ch := a[0].children.value;
    assert ch == [1, 2];
    forall i | 0 <= i < |ch|
      ensures !Conforms(a, sg0, ch[i])
    {
      assert ch[i] == 1 || ch[i] == 2;
    }
    assert cs[2] == sg0;
  }

  /**
   * The discrepancy: on ABC DEF GHI JKL DEF JKL the step as written accepts everything and
   * builds a tree that is not an instance of the specification, while the step with the
   * whole subtree reset refuses the second JKL at its position.
   */
  lemma StaleVisitsCounterexample(a: Arena, rx: (string, string) -> bool)
    requires a == Nested()
    ensures WF(a)
    ensures var o := FeedAsWritten(a, rx, Start(a), Input());
      o.error.None? && o.state.tree.Some? && !Conforms(a, o.state.tree.value, 0)
    ensures Feed(a, rx, Start(a), Input()).error == Some(Error(InvalidSegment, Position(6, 1)))
  {
    CorrectedRun(a, rx);
    AsWrittenRun(a, rx);
    StrayJkl(a);
  }
}
