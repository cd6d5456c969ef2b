/**
 * The SegmentBuilder of lib/edifact/segment_builder.rb: it builds segments under the default
 * delimiters and gives each segment, element and component, on line 1, the column its text
 * takes in the result of to_edifact. When no name or value holds a line break, every name is
 * free of service characters and all text is ASCII (one character is one byte), that is also
 * the column the tokenizer reports for it (RoundTrip.BuilderReadsBack); a value with a line
 * break moves the tokenizer to a new line, and a multi-byte character moves it further than
 * the builder's character count.
 *
 * The alignment is the invariant AlignedState: it holds for a fresh builder, segment keeps
 * it, and element keeps it when it is given at least one value and a segment is in the group.
 */
module Builder {
  import opened Common
  import opened Nodes

  /** @una_header: the service string advice of the default delimiters. */
  const Header: string := "UNA:+.? '"

  // ---------------------------------------------------------------------------------------
  // The layout of one element

  /** How far element(*values) moves @column: one separator and the escaped text per value. */
  function Width(vs: seq<string>): nat
  {
    if vs == [] then 0 else 1 + |Escape(vs[0])| + Width(vs[1..])
  }

  /**
   * The components element(*values) builds for an element whose '+' is at column col: each
   * value at the column after the separator that precedes it.
   */
  function Layout(col: int, vs: seq<string>): seq<Component>
    decreases vs
  {
    if vs == [] then []
    else [Component(Position(1, col + 1), vs[0])] + Layout(col + 1 + |Escape(vs[0])|, vs[1..])
  }

  function Texts(cs: seq<Component>): seq<string>
  {
    seq(|cs|, i requires 0 <= i < |cs| => cs[i].text)
  }

  /** One more value moves the column by its separator and escaped text. */
  lemma {:induction false} WidthSnoc(vs: seq<string>, v: string)
    ensures Width(vs + [v]) == Width(vs) + 1 + |Escape(v)|
  {
    if vs == [] {
      assert [] + [v] == [v];
      assert [v][1..] == [];
    } else {
      assert (vs + [v])[1..] == vs[1..] + [v];
      WidthSnoc(vs[1..], v);
    }
  }

  /** One more value adds one component, at the column the values before it have reached. */
  lemma {:induction false} LayoutSnoc(col: int, vs: seq<string>, v: string)
    ensures Layout(col, vs + [v]) == Layout(col, vs) + [Component(Position(1, col + Width(vs) + 1), v)]
    decreases vs
  {
    if vs == [] {
      assert [] + [v] == [v];
      assert [v][1..] == [];
    } else {
      assert (vs + [v])[1..] == vs[1..] + [v];
      LayoutSnoc(col + 1 + |Escape(vs[0])|, vs[1..], v);
    }
  }

  /** The component of the i-th value holds that value, at the column after the values before it. */
  lemma {:induction false} LayoutAt(col: int, vs: seq<string>, i: nat)
    requires i < |vs|
    ensures |Layout(col, vs)| == |vs|
    ensures Layout(col, vs)[i] == Component(Position(1, col + Width(vs[..i]) + 1), vs[i])
    decreases vs
  {
    LayoutLength(col, vs);
    if i > 0 {
      assert vs[..i][1..] == vs[1..][..i - 1];
      LayoutAt(col + 1 + |Escape(vs[0])|, vs[1..], i - 1);
    }
  }

  lemma {:induction false} LayoutLength(col: int, vs: seq<string>)
    ensures |Layout(col, vs)| == |vs|
    decreases vs
  {
    if vs != [] {
      LayoutLength(col + 1 + |Escape(vs[0])|, vs[1..]);
    }
  }

  lemma {:induction false} LayoutTexts(col: int, vs: seq<string>)
    ensures Texts(Layout(col, vs)) == vs
    decreases vs
  {
    if vs != [] {
      LayoutTexts(col + 1 + |Escape(vs[0])|, vs[1..]);
      LayoutLength(col, vs);
      assert Texts(Layout(col, vs))[1..] == Texts(Layout(col + 1 + |Escape(vs[0])|, vs[1..]));
    }
  }

  lemma {:induction false} LayoutPrefix(col: int, vs: seq<string>, i: nat)
    requires i <= |vs|
    ensures |Layout(col, vs)| == |vs|
    ensures Layout(col, vs)[..i] == Layout(col, vs[..i])
    decreases vs
  {
    LayoutLength(col, vs);
    if i > 0 {
      assert vs[..i][1..] == vs[1..][..i - 1];
      LayoutPrefix(col + 1 + |Escape(vs[0])|, vs[1..], i - 1);
    } else {
      assert vs[..i] == [];
    }
  }

  /**
   * The columns element(*values) moves over are exactly the characters of the element's
   * to_edifact, except for an element without values: its '+' is written but not counted.
   */
  lemma {:induction false} ElementWidth(p: Position, col: int, vs: seq<string>)
    ensures vs != [] ==> |ElementToEdifact(Element(p, Layout(col, vs)))| == Width(vs)
    ensures vs == [] ==> |ElementToEdifact(Element(p, Layout(col, vs)))| == Width(vs) + 1
  {
    if vs != [] {
      JoinWidth(col, vs);
    }
  }

  /** The escaped values joined by ':' take one column less than element(*values) moves. */
  lemma {:induction false} JoinWidth(col: int, vs: seq<string>)
    requires vs != []
    ensures |JoinComponents(Layout(col, vs))| + 1 == Width(vs)
    decreases vs
  {
    var rest := Layout(col + 1 + |Escape(vs[0])|, vs[1..]);
    LayoutLength(col + 1 + |Escape(vs[0])|, vs[1..]);
    assert Layout(col, vs)[1..] == rest;
    if |vs| > 1 {
      JoinWidth(col + 1 + |Escape(vs[0])|, vs[1..]);
    } else {
      assert vs[1..] == [];
    }
  }

  /**
   * Each component of element(*values) starts one column after the text the element's
   * to_edifact writes before it: the '+' and the components before it, then a ':'.
   */
  lemma ComponentColumns(p: Position, col: int, vs: seq<string>)
    ensures |Layout(col, vs)| == |vs|
    ensures forall i :: 0 <= i < |vs| ==>
      Layout(col, vs)[i].pos ==
        Position(1, col + |ElementToEdifact(Element(p, Layout(col, vs)[..i]))| + (if i == 0 then 0 else 1))
  {
    LayoutLength(col, vs);
    forall i | 0 <= i < |vs|
      ensures Layout(col, vs)[i].pos ==
        Position(1, col + |ElementToEdifact(Element(p, Layout(col, vs)[..i]))| + (if i == 0 then 0 else 1))
    {
      LayoutAt(col, vs, i);
      LayoutPrefix(col, vs, i);
      ElementWidth(p, col, vs[..i]);
    }
  }

  // ---------------------------------------------------------------------------------------
  // The text of the group and the alignment invariant

  function Children(ss: seq<Segment>): seq<GroupChild>
  {
    seq(|ss|, i requires 0 <= i < |ss| => SegmentChild(ss[i]))
  }

  /** @segment_group.to_edifact for a group holding the segments ss. */
  function Text(ss: seq<Segment>): string
  {
    GroupToEdifact(SegmentGroup("", Children(ss)))
  }

  lemma TextSnoc(ss: seq<Segment>, s: Segment)
    ensures Text(ss + [s]) == Text(ss) + SegmentToEdifact(s)
  {
    assert Children(ss + [s]) == Children(ss) + [SegmentChild(s)];
    ChildrenToEdifactAppend(Children(ss), [SegmentChild(s)]);
    assert ChildrenToEdifact([SegmentChild(s)]) == SegmentToEdifact(s) + ChildrenToEdifact([]);
  }

  lemma TextSplit(ss: seq<Segment>, k: nat)
    requires k < |ss|
    ensures Text(ss) == Text(ss[..k]) + SegmentToEdifact(ss[k]) + Text(ss[k + 1..])
  {
    assert Children(ss) == Children(ss[..k]) + ([SegmentChild(ss[k])] + Children(ss[k + 1..]));
    ChildrenToEdifactAppend(Children(ss[..k]), [SegmentChild(ss[k])] + Children(ss[k + 1..]));
    ChildrenToEdifactAppend([SegmentChild(ss[k])], Children(ss[k + 1..]));
    assert ChildrenToEdifact([SegmentChild(ss[k])]) == SegmentToEdifact(ss[k]) + ChildrenToEdifact([]);
  }

  /** An element whose '+' is at column col, with the components element(*values) lays out there. */
  predicate ElementPlaced(e: Element, col: int)
  {
    e.pos == Position(1, col) && e.components != [] && e.components == Layout(col, Texts(e.components))
  }

  /** Elements placed one after the other from column col, each where the text before it ends. */
  predicate ElementsPlaced(es: seq<Element>, col: int)
    decreases |es|
  {
    es == [] ||
    (ElementsPlaced(es[..|es| - 1], col) &&
     ElementPlaced(es[|es| - 1], col + |ElementsToEdifact(es[..|es| - 1])|))
  }

  /** A segment whose name starts at column col, its elements right after the name. */
  predicate SegmentPlaced(s: Segment, col: int)
  {
    s.pos == Position(1, col) && ElementsPlaced(s.elements, col + |s.name|)
  }

  /** Segments placed one after the other after the header, each where the text before it ends. */
  predicate SegmentsPlaced(ss: seq<Segment>)
    decreases |ss|
  {
    ss == [] ||
    (SegmentsPlaced(ss[..|ss| - 1]) && SegmentPlaced(ss[|ss| - 1], |Header| + |Text(ss[..|ss| - 1])| + 1))
  }

  /**
   * @column and the positions of the segments ss agree with the text Header + Text(ss): each
   * segment starts at the column after the text before it, and @column is the column of the
   * next '+' or, for an empty group, of the first segment.
   */
  predicate AlignedState(column: int, ss: seq<Segment>)
  {
    column == |Header| + |Text(ss)| + (if ss == [] then 1 else 0) && SegmentsPlaced(ss)
  }

  /** In placed segments, the k-th starts at the column after the text of the ones before it. */
  lemma {:induction false} SegmentPlacedAt(ss: seq<Segment>, k: nat)
    requires SegmentsPlaced(ss) && k < |ss|
    ensures SegmentPlaced(ss[k], |Header| + |Text(ss[..k])| + 1)
    decreases |ss|
  {
    var n := |ss|;
    if k < n - 1 {
      assert ss[..n - 1][..k] == ss[..k];
      SegmentPlacedAt(ss[..n - 1], k);
    }
  }

  /** In placed elements, the m-th has its '+' at the column after the text of the ones before it. */
  lemma {:induction false} ElementPlacedAt(es: seq<Element>, col: int, m: nat)
    requires ElementsPlaced(es, col) && m < |es|
    ensures ElementPlaced(es[m], col + |ElementsToEdifact(es[..m])|)
    decreases |es|
  {
    var n := |es|;
    if m < n - 1 {
      assert es[..n - 1][..m] == es[..m];
      ElementPlacedAt(es[..n - 1], col, m);
    }
  }

  /** A fresh builder is aligned: the first segment goes to column 10. */
  lemma StartAligned()
    ensures AlignedState(1 + |Header|, []) && 1 + |Header| == 10
  {
  }

  /** segment keeps the alignment. */
  lemma SegmentKeepsAlignment(column: int, ss: seq<Segment>, name: string)
    requires AlignedState(column, ss)
    ensures var col := column + (if ss == [] then 0 else 1);
      AlignedState(col + |name|, ss + [Segment(Position(1, col), name, [])])
  {
    var col := column + (if ss == [] then 0 else 1);
    var s := Segment(Position(1, col), name, []);
    TextSnoc(ss, s);
    assert |SegmentToEdifact(s)| == |name| + 1;
    assert (ss + [s])[..|ss|] == ss;
  }

  /** element(*values) with at least one value lays its element out as ElementPlaced describes. */
  lemma LaidOut(col: int, vs: seq<string>)
    requires vs != []
    ensures ElementPlaced(Element(Position(1, col), Layout(col, vs)), col)
  {
    LayoutTexts(col, vs);
  }

  /** An element placed right after a placed segment's elements leaves the segment placed. */
  lemma AppendPlaced(s: Segment, col: int, e: Element)
    requires SegmentPlaced(s, col) && ElementPlaced(e, col + |s.name| + |ElementsToEdifact(s.elements)|)
    ensures SegmentPlaced(s.Append(e), col)
  {
    assert s.Append(e).elements[..|s.elements|] == s.elements;
  }

  /** element with at least one value, on a group holding the current segment, keeps the alignment. */
  lemma ElementKeepsAlignment(column: int, ss: seq<Segment>, vs: seq<string>)
    requires AlignedState(column, ss) && ss != [] && vs != []
    ensures var e := Element(Position(1, column), Layout(column, vs));
      AlignedState(column + Width(vs), ss[..|ss| - 1] + [ss[|ss| - 1].Append(e)])
  {
    var n := |ss|;
    var init := ss[..n - 1];
    var s := ss[n - 1];
    var e := Element(Position(1, column), Layout(column, vs));
    var s' := s.Append(e);
    var ss' := init + [s'];
    var c := |Header| + |Text(init)| + 1;
    assert ss == init + [s];
    TextSnoc(init, s);
    TextSnoc(init, s');
    SegmentAppendSerialisation(s, e);
    ElementWidth(Position(1, column), column, vs);
    LaidOut(column, vs);
    AppendPlaced(s, c, e);
    assert ss'[..n - 1] == init;
  }

  /** In an aligned builder, the text of each segment starts at the column of its position. */
  lemma SegmentOffsets(column: int, ss: seq<Segment>, k: nat)
    requires AlignedState(column, ss) && k < |ss|
    ensures var off := ss[k].pos.column - 1;
      0 <= off && off + |SegmentToEdifact(ss[k])| <= |Header + Text(ss)| &&
      (Header + Text(ss))[off..off + |SegmentToEdifact(ss[k])|] == SegmentToEdifact(ss[k])
  {
    SegmentPlacedAt(ss, k);
    TextSplit(ss, k);
    var pre := Header + Text(ss[..k]);
    assert Header + Text(ss) == pre + SegmentToEdifact(ss[k]) + Text(ss[k + 1..]);
  }

  /** In an aligned builder, the text of each element starts at the column of its '+'. */
  lemma ElementOffsets(column: int, ss: seq<Segment>, k: nat, m: nat)
    requires AlignedState(column, ss) && k < |ss| && m < |ss[k].elements|
    ensures var e := ss[k].elements[m];
      var off := e.pos.column - 1;
      0 <= off && off + |ElementToEdifact(e)| <= |Header + Text(ss)| &&
      (Header + Text(ss))[off..off + |ElementToEdifact(e)|] == ElementToEdifact(e)
  {
    var s := ss[k];
    var es := s.elements;
    var col := |Header| + |Text(ss[..k])| + 1;
    SegmentPlacedAt(ss, k);
    ElementPlacedAt(es, col + |s.name|, m);
    var X := ElementToEdifact(es[m]);
    var before := ElementsToEdifact(es[..m]);
    var after := ElementsToEdifact(es[m + 1..]);
    assert ElementsToEdifact(es) == before + X + after by {
      assert es == es[..m] + ([es[m]] + es[m + 1..]);
      ElementsToEdifactAppend(es[..m], [es[m]] + es[m + 1..]);
      ElementsToEdifactAppend([es[m]], es[m + 1..]);
      assert ElementsToEdifact([es[m]]) == X + ElementsToEdifact([]);
    }
    TextSplit(ss, k);
    assert SegmentToEdifact(s) == s.name + (before + X + after) + ['\''];
    Regroup(Header, Text(ss[..k]), s.name, before, X, after, Text(ss[k + 1..]));
    var A := Header + Text(ss[..k]) + s.name + before;
    var B := after + ['\''] + Text(ss[k + 1..]);
    Slice(A, X, B);
  }

  lemma Regroup(h: string, t: string, n: string, b: string, x: string, a: string, r: string)
    ensures h + (t + (n + (b + x + a) + ['\'']) + r) == (h + t + n + b) + x + (a + ['\''] + r)
  {
  }

  lemma Slice(a: string, x: string, b: string)
    ensures (a + x + b)[|a|..|a| + |x|] == x
  {
  }

  // ---------------------------------------------------------------------------------------
  // The builder object

  class SegmentBuilder {
    /** @line: the builder writes everything on line 1. */
    const line: int
    /** @column: where the next character will go. */
    var column: int
    /** @segment: the segment element adds to, once one was started. */
    var current: Option<Segment>
    /** @segment_group.segments */
    var segments: seq<Segment>

    /** The current segment is the last of the group, unless read took it away. */
    predicate Valid()
      reads this
    {
      line == 1 &&
      (current.None? ==> segments == []) &&
      (current.Some? && segments != [] ==> segments[|segments| - 1] == current.value)
    }

    predicate Aligned()
      reads this
    {
      AlignedState(column, segments)
    }

    /** to_edifact */
    function ToEdifact(): string
      reads this
    {
      Header + Text(segments)
    }

    constructor()
      ensures Valid() && Aligned()
      ensures column == 10 && current.None? && segments == [] && ToEdifact() == Header
    {
      line := 1;
      column := 1 + |Header|;
      current := None;
      segments := [];
      StartAligned();
    }

    /** segment(name): a new segment after the terminator of the previous one. */
    method AddSegment(name: string)
      requires Valid()
      modifies this`column, this`current, this`segments
      ensures Valid()
      ensures var col := old(column) + (if old(segments) == [] then 0 else 1);
        column == col + |name| && current == Some(Segment(Position(1, col), name, [])) &&
        segments == old(segments) + [current.value]
      ensures old(Aligned()) ==> Aligned()
    {
      ghost var aligned := Aligned();
      ghost var ss := segments;
      if segments != [] {
        column := column + 1; // segment terminator of the previous segment
      }
      column := column + |name|;
      current := Some(Segment(Position(line, column - |name|), name, []));
      segments := segments + [current.value];
      if aligned {
        SegmentKeepsAlignment(old(column), ss, name);
      }
    }

    /**
     * element(*values): the components laid out from the current column, then added to the
     * current segment; with no segment started the column has moved all the same.
     */
    method AddElement(values: seq<string>) returns (err: Option<Error>)
      requires Valid()
      modifies this`column, this`current, this`segments
      ensures Valid()
      ensures column == old(column) + Width(values)
      ensures old(current).None? ==>
        err == Some(Error(NoSegmentDefined, NoPosition)) && current == old(current) && segments == old(segments)
      ensures old(current).Some? ==>
        err.None? &&
        current == Some(old(current).value.Append(Element(Position(1, old(column)), Layout(old(column), values)))) &&
        segments == (if old(segments) == [] then [] else old(segments)[..|old(segments)| - 1] + [current.value])
      ensures old(Aligned()) && old(segments) != [] && values != [] ==> Aligned()
    {
      ghost var aligned := Aligned();
      var start := column;
      var e := Element(Position(line, column), []);
      var i := 0;
      while i < |values|
        invariant 0 <= i <= |values|
        invariant column == start + Width(values[..i])
        invariant e == Element(Position(1, start), Layout(start, values[..i]))
        invariant current == old(current) && segments == old(segments)
      {
        assert values[..i + 1] == values[..i] + [values[i]];
        WidthSnoc(values[..i], values[i]);
        LayoutSnoc(start, values[..i], values[i]);
        column := column + 1; // element separator (i == 0) or component separator (i > 0)
        var c := Component(Position(line, column), values[i]);
        column := column + ComponentLength(c);
        e := e.Append(c);
        i := i + 1;
      }
      assert values[..|values|] == values;
      if current.None? {
        return Some(Error(NoSegmentDefined, NoPosition));
      }
      if aligned && segments != [] && values != [] {
        ElementKeepsAlignment(start, segments, values);
      }
      current := Some(current.value.Append(e));
      if segments != [] {
        segments := segments[..|segments| - 1] + [current.value];
      }
      return None;
    }

    /** read: the first segment of the group taken out of it, or nothing once it is empty. */
    method Read() returns (s: Option<Segment>)
      requires Valid()
      modifies this`segments
      ensures Valid()
      ensures old(segments) == [] ==> s.None? && segments == []
      ensures old(segments) != [] ==> s == Some(old(segments)[0]) && segments == old(segments)[1..]
    {
      if segments == [] {
        return None;
      }
      s := Some(segments[0]);
      segments := segments[1..];
    }

    /** read_remaining: every segment of the group, none taken out. */
    method ReadRemaining() returns (r: seq<Segment>)
      ensures r == segments
    {
      r := segments;
    }
  }
}
