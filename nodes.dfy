/**
 * The parse-tree values of lib/edifact/nodes: Component, Element, Segment and SegmentGroup,
 * with their serialisation under the fixed default delimiters ' + : ?.
 * Equality of these values is Dafny's structural datatype equality. Component#== and
 * SegmentGroup#== compare exactly that (class, position and text; class, name and children);
 * Element and Segment define no ==, and structural equality stands for the comparison of
 * their contents that the library's callers intend.
 */
module Nodes {
  import opened Common

  /** The characters Component#to_edifact escapes. */
  const Specials: set<char> := {'+', ':', '\'', '?'}

  datatype Component = Component(pos: Position, text: string)

  datatype Element = Element(pos: Position, components: seq<Component>) {
    /** Element#<< */
    function Append(c: Component): (r: Element)
      ensures r.pos == pos && |r.components| == |components| + 1
      ensures r.components[..|components|] == components && r.components[|components|] == c
    {
      Element(pos, components + [c])
    }
  }

  datatype Segment = Segment(pos: Position, name: string, elements: seq<Element>) {
    /** Segment#<< */
    function Append(e: Element): (r: Segment)
      ensures r.pos == pos && r.name == name && |r.elements| == |elements| + 1
      ensures r.elements[..|elements|] == elements && r.elements[|elements|] == e
    {
      Segment(pos, name, elements + [e])
    }
  }

  datatype GroupChild = SegmentChild(segment: Segment) | SubGroup(group: SegmentGroup)

  datatype SegmentGroup = SegmentGroup(name: string, children: seq<GroupChild>) {
    /** SegmentGroup#<< */
    function Append(c: GroupChild): (r: SegmentGroup)
      ensures r.name == name && |r.children| == |children| + 1
      ensures r.children[..|children|] == children && r.children[|children|] == c
    {
      SegmentGroup(name, children + [c])
    }
  }

  /** Component#to_edifact: every special character is prefixed with the release character. */
  function Escape(t: string): string
  {
    if t == [] then [] else (if t[0] in Specials then ['?', t[0]] else [t[0]]) + Escape(t[1..])
  }

  /** Component#length */
  function ComponentLength(c: Component): nat
  {
    |Escape(c.text)|
  }

  function ComponentToEdifact(c: Component): string
  {
    Escape(c.text)
  }

  /** The escaped components joined by ':'. */
  function JoinComponents(cs: seq<Component>): string
  {
    if cs == [] then []
    else if |cs| == 1 then Escape(cs[0].text)
    else Escape(cs[0].text) + [':'] + JoinComponents(cs[1..])
  }

  /** Element#to_edifact */
  function ElementToEdifact(e: Element): string
  {
    ['+'] + JoinComponents(e.components)
  }

  function ElementsToEdifact(es: seq<Element>): string
  {
    if es == [] then [] else ElementToEdifact(es[0]) + ElementsToEdifact(es[1..])
  }

  /** Segment#to_edifact */
  function SegmentToEdifact(s: Segment): string
  {
    s.name + ElementsToEdifact(s.elements) + ['\'']
  }

  function ChildToEdifact(c: GroupChild): string
    decreases c, 0
  {
    match c
    case SegmentChild(s) => SegmentToEdifact(s)
    case SubGroup(g) => GroupToEdifact(g)
  }

  /** SegmentGroup#to_edifact */
  function GroupToEdifact(g: SegmentGroup): string
    decreases g, 1
  {
    ChildrenToEdifact(g.children)
  }

  function ChildrenToEdifact(cs: seq<GroupChild>): string
    decreases cs
  {
    if cs == [] then [] else ChildToEdifact(cs[0]) + ChildrenToEdifact(cs[1..])
  }

  function ChildPos(c: GroupChild): Position
  {
    match c
    case SegmentChild(s) => s.pos
    case SubGroup(g) => GroupPos(g)
  }

  /** SegmentGroup#pos: the first child's position, or the -1 sentinel for an empty group. */
  function GroupPos(g: SegmentGroup): (p: Position)
    ensures g.children == [] ==> p == NoPosition
    ensures g.children != [] ==> p == ChildPos(g.children[0])
  {
    if g.children == [] then NoPosition else ChildPos(g.children[0])
  }

  // ---------------------------------------------------------------------------------------
  // Properties of the serialisation

  /** Escaping adds exactly one character per special character and keeps all others. */
  lemma {:induction false} EscapeLength(t: string)
    ensures |Escape(t)| == |t| + CountIn(t, Specials)
  {
    if t != [] {
      EscapeLength(t[1..]);
    }
  }

  /** Component#length is the text length plus the number of delimiter characters in it. */
  lemma ComponentLengthIsEscapedLength(c: Component)
    ensures ComponentLength(c) == |c.text| + CountIn(c.text, Specials)
    ensures ComponentLength(c) == |ComponentToEdifact(c)|
  {
    EscapeLength(c.text);
  }

  lemma {:induction false} EscapeAppend(a: string, b: string)
    ensures Escape(a + b) == Escape(a) + Escape(b)
  {
    if a == [] {
      assert a + b == b;
    } else {
      assert (a + b)[1..] == a[1..] + b;
      EscapeAppend(a[1..], b);
    }
  }

  /**
   * The number of occurrences of c in s that the tokenizer would read as a delimiter:
   * a release character makes the character after it literal.
   */
  function UnescapedCount(s: string, c: char): nat
  {
    if s == [] then 0
    else if s[0] == '?' then (if |s| >= 2 then UnescapedCount(s[2..], c) else 0)
    else (if s[0] == c then 1 else 0) + UnescapedCount(s[1..], c)
  }

  /** No special character of an escaped text is read as a delimiter. */
  lemma {:induction false} EscapeHidesDelimiters(t: string, rest: string, c: char)
    requires c in Specials
    ensures UnescapedCount(Escape(t) + rest, c) == UnescapedCount(rest, c)
  {
    if t != [] {
      var head := if t[0] in Specials then ['?', t[0]] else [t[0]];
      assert Escape(t) + rest == head + (Escape(t[1..]) + rest);
      EscapeHidesDelimiters(t[1..], rest, c);
    } else {
      assert Escape(t) + rest == rest;
    }
  }

  /** The serialisation of k >= 1 components holds exactly k - 1 unescaped ':'. */
  lemma {:induction false} JoinedSeparators(cs: seq<Component>)
    requires |cs| >= 1
    ensures UnescapedCount(JoinComponents(cs), ':') == |cs| - 1
  {
    if |cs| == 1 {
      assert JoinComponents(cs) == Escape(cs[0].text) + [];
      EscapeHidesDelimiters(cs[0].text, [], ':');
    } else {
      var rest := JoinComponents(cs[1..]);
      assert JoinComponents(cs) == Escape(cs[0].text) + ([':'] + rest);
      EscapeHidesDelimiters(cs[0].text, [':'] + rest, ':');
      assert ([':'] + rest)[1..] == rest;
      JoinedSeparators(cs[1..]);
    }
  }

  /** Element#to_edifact: a '+', then k - 1 unescaped ':' between the k escaped components. */
  lemma ElementSeparators(e: Element)
    requires |e.components| >= 1
    ensures ElementToEdifact(e)[0] == '+'
    ensures UnescapedCount(ElementToEdifact(e)[1..], ':') == |e.components| - 1
  {
    assert ElementToEdifact(e)[1..] == JoinComponents(e.components);
    JoinedSeparators(e.components);
  }

  lemma {:induction false} ElementsToEdifactAppend(a: seq<Element>, b: seq<Element>)
    ensures ElementsToEdifact(a + b) == ElementsToEdifact(a) + ElementsToEdifact(b)
  {
    if a == [] {
      assert a + b == b;
    } else {
      assert (a + b)[1..] == a[1..] + b;
      ElementsToEdifactAppend(a[1..], b);
    }
  }

  /** Appending an element appends its serialisation just before the segment terminator. */
  lemma SegmentAppendSerialisation(s: Segment, e: Element)
    ensures SegmentToEdifact(s.Append(e))
         == s.name + ElementsToEdifact(s.elements) + ElementToEdifact(e) + ['\'']
  {
    ElementsToEdifactAppend(s.elements, [e]);
    assert ElementsToEdifact([e]) == ElementToEdifact(e) + ElementsToEdifact([]);
  }

  lemma {:induction false} ChildrenToEdifactAppend(a: seq<GroupChild>, b: seq<GroupChild>)
    ensures ChildrenToEdifact(a + b) == ChildrenToEdifact(a) + ChildrenToEdifact(b)
  {
    if a == [] {
      assert a + b == b;
    } else {
      assert (a + b)[1..] == a[1..] + b;
      ChildrenToEdifactAppend(a[1..], b);
    }
  }

  /** SegmentGroup#<< extends the group's serialisation by the child's serialisation. */
  lemma GroupAppendSerialisation(g: SegmentGroup, c: GroupChild)
    ensures GroupToEdifact(g.Append(c)) == GroupToEdifact(g) + ChildToEdifact(c)
  {
    ChildrenToEdifactAppend(g.children, [c]);
    assert ChildrenToEdifact([c]) == ChildToEdifact(c) + ChildrenToEdifact([]);
  }
}
