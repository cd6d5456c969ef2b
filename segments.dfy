/**
 * SegmentStream of lib/edifact/segment_stream.rb: segments, elements and components assembled
 * from a TokenStream with one token of lookahead.
 *
 * The assembly is specified by functions over the tokens a stream has still to yield (a
 * Lexed value); the class keeps the peek buffer and is proved against those functions.
 */
module Segments {
  import opened Common
  import opened Tokens
  import opened Nodes

  /** A value read off a token sequence, and the tokens still to come after it. */
  datatype Read<T> = Read(value: T, rest: Lexed)

  /** The token the next read returns: the first pending token, or the stream's end. */
  function Head(l: Lexed): Result<Token, Error>
  {
    if l.tokens == [] then l.end else Success(l.tokens[0])
  }

  /** The tokens after the next one; at the end of a stream eof comes back again and again. */
  function Tail(l: Lexed): (r: Lexed)
    ensures r.end == l.end
    ensures l.tokens == [] ==> r == l
    ensures l.tokens != [] ==> |r.tokens| == |l.tokens| - 1
  {
    if l.tokens == [] then l else Lexed(l.tokens[1..], l.end)
  }

  /** The end of a token sequence is the eof token or an error, as Lex produces it. */
  predicate EndsWell(l: Lexed)
  {
    l.end.Success? ==> l.end.value.kind == Eof
  }

  /** rest is what remains of l once some of its tokens have been read. */
  predicate Suffix(rest: Lexed, l: Lexed)
  {
    rest.end == l.end && |rest.tokens| <= |l.tokens| && rest.tokens == l.tokens[|l.tokens| - |rest.tokens|..]
  }

  /** The tokens of l that were read to leave rest. */
  function Consumed(l: Lexed, rest: Lexed): seq<Token>
    requires |rest.tokens| <= |l.tokens|
  {
    l.tokens[..|l.tokens| - |rest.tokens|]
  }

  lemma SuffixTail(l: Lexed)
    ensures Suffix(Tail(l), l)
  {
  }

  lemma SuffixTransitive(a: Lexed, b: Lexed, c: Lexed)
    requires Suffix(a, b) && Suffix(b, c)
    ensures Suffix(a, c)
  {
    assert c.tokens[|c.tokens| - |a.tokens|..] == c.tokens[|c.tokens| - |b.tokens|..][|b.tokens| - |a.tokens|..];
  }

  /** read_token: the next token when it has the expected type, else UnexpectedTokenError. */
  function Expect(h: Result<Token, Error>, expected: TokenKind): (r: Result<Token, Error>)
  {
    match h
    case Failure(err) => Failure(err)
    case Success(t) => if t.kind == expected then Success(t) else Failure(Error(UnexpectedToken, t.pos))
  }

  predicate AfterSeparator(k: TokenKind)
  {
    k == ComponentSeparator || k == ElementSeparator
  }

  /** The empty component read_element adds when no text follows a separator. */
  function CloseEmpty(e: Element, prev: TokenKind, pos: Position): Element
  {
    if AfterSeparator(prev) then e.Append(Component(pos, "")) else e
  }

  /** The loop of read_element, from the token after prev on, building e. */
  function ElementBody(l: Lexed, prev: TokenKind, e: Element): (r: Result<Read<Element>, Error>)
    ensures r.Success? ==> Suffix(r.value.rest, l)
    decreases |l.tokens|
  {
    if l.tokens == [] then
      match l.end
      case Failure(err) => Failure(err)
      case Success(eof) => Success(Read(CloseEmpty(e, prev, eof.pos), l))
    else
      var t := l.tokens[0];
      if t.kind == Text then
        var r := ElementBody(Tail(l), Text, e.Append(Component(t.pos, t.value)));
        if r.Success? then SuffixTransitive(r.value.rest, Tail(l), l); r else r
      else if t.kind == ComponentSeparator then
        var r := ElementBody(Tail(l), ComponentSeparator, CloseEmpty(e, prev, t.pos));
        if r.Success? then SuffixTransitive(r.value.rest, Tail(l), l); r else r
      else
        Success(Read(CloseEmpty(e, prev, t.pos), l))
  }

  /** read_element: the element separator, then the element it opens. */
  function ReadElementAt(l: Lexed): (r: Result<Read<Element>, Error>)
    ensures r.Success? ==> Suffix(r.value.rest, l) && |r.value.rest.tokens| < |l.tokens|
  {
    match Expect(Head(l), ElementSeparator)
    case Failure(err) => Failure(err)
    case Success(sep) =>
      if l.tokens == [] then Failure(Error(UnexpectedToken, sep.pos))
      else
        var r := ElementBody(Tail(l), ElementSeparator, Element(sep.pos, []));
        if r.Success? then SuffixTransitive(r.value.rest, Tail(l), l); r else r
  }

  /** The loop of read_segment after the name: elements up to the segment separator. */
  function SegmentBody(l: Lexed, s: Segment): (r: Result<Read<Segment>, Error>)
    ensures r.Success? ==> Suffix(r.value.rest, l) && |r.value.rest.tokens| < |l.tokens|
    decreases |l.tokens|
  {
    if l.tokens == [] then
      match l.end
      case Failure(err) => Failure(err)
      case Success(eof) => Failure(Error(UnexpectedEndOfInput, eof.pos))
    else
      var t := l.tokens[0];
      if t.kind == SegmentSeparator then Success(Read(s, Tail(l)))
      else if t.kind == ElementSeparator then
        match ReadElementAt(l)
        case Failure(err) => Failure(err)
        case Success(Read(e, rest)) =>
          var r := SegmentBody(rest, s.Append(e));
          if r.Success? then SuffixTransitive(r.value.rest, rest, l); r else r
      else if t.kind == Eof then Failure(Error(UnexpectedEndOfInput, t.pos))
      else Failure(Error(UnexpectedToken, t.pos))
  }

  /** read_segment: nothing at eof, else a segment named by a text token. */
  function SegmentAt(l: Lexed): (r: Result<Read<Option<Segment>>, Error>)
    ensures r.Success? ==> Suffix(r.value.rest, l)
    ensures r.Success? && r.value.value.Some? ==> |r.value.rest.tokens| < |l.tokens|
    ensures r.Success? && r.value.value.None? ==> r.value.rest == l
  {
    match Head(l)
    case Failure(err) => Failure(err)
    case Success(t) =>
      if t.kind == Eof then Success(Read(None, l))
      else if t.kind != Text then Failure(Error(UnexpectedToken, t.pos))
      else
        match SegmentBody(Tail(l), Segment(t.pos, t.value, []))
        case Failure(err) => Failure(err)
        case Success(Read(s, rest)) =>
          SuffixTransitive(rest, Tail(l), l);
          Success(Read(Some(s), rest))
  }

  /** read_remaining: the segments in order up to the end, or the first error. */
  function ReadAll(l: Lexed): (r: Result<seq<Segment>, Error>)
    decreases |l.tokens|
  {
    match SegmentAt(l)
    case Failure(err) => Failure(err)
    case Success(Read(None, _)) => Success([])
    case Success(Read(Some(s), rest)) =>
      match ReadAll(rest)
      case Failure(err) => Failure(err)
      case Success(ss) => Success([s] + ss)
  }

  lemma PrependAppend(a: seq<Segment>, b: seq<Segment>, r: Result<seq<Segment>, Error>)
    ensures Prepend(a, Prepend(b, r)) == Prepend(a + b, r)
  {
    if r.Success? {
      assert a + (b + r.value) == a + b + r.value;
    }
  }

  /** A segment read off l comes first in what read_remaining returns from l. */
  lemma ReadAllStep(l: Lexed)
    requires SegmentAt(l).Success? && SegmentAt(l).value.value.Some?
    ensures ReadAll(l) == Prepend([SegmentAt(l).value.value.value], ReadAll(SegmentAt(l).value.rest))
  {
  }

  /** A method's result r and the pending tokens now, against the specification's read. */
  predicate Delivers<T(==)>(r: Result<T, Error>, spec: Result<Read<T>, Error>, now: Lexed)
  {
    match spec
    case Failure(err) => r == Failure(err)
    case Success(Read(v, rest)) => r == Success(v) && now == rest
  }

  function Prepend(ss: seq<Segment>, r: Result<seq<Segment>, Error>): Result<seq<Segment>, Error>
  {
    match r
    case Failure(err) => Failure(err)
    case Success(more) => Success(ss + more)
  }

  // ---------------------------------------------------------------------------------------
  // The stream object

  class SegmentStream {
    const tokens: TokenStream
    /** @peek_buf: at most one token read from the token stream and not yet consumed. */
    var peekBuf: seq<Token>

    predicate Valid()
      reads this, tokens
    {
      tokens.Valid() && |peekBuf| <= 1 &&
      (peekBuf != [] && peekBuf[0].kind == Eof ==> tokens.Pending() == Lexed([], Success(peekBuf[0])))
    }

    /** The tokens this stream has still to assemble: the peeked one, then the stream's. */
    function Pending(): (p: Lexed)
      reads this, tokens
      requires Valid()
      ensures EndsWell(p)
    {
      if peekBuf == [] || peekBuf[0].kind == Eof then tokens.Pending()
      else Lexed([peekBuf[0]] + tokens.Pending().tokens, tokens.Pending().end)
    }

    constructor(ts: TokenStream)
      requires ts.Valid()
      ensures tokens == ts && peekBuf == [] && Valid() && Pending() == ts.Pending()
    {
      tokens := ts;
      peekBuf := [];
    }

    /** peek_token */
    method PeekToken() returns (r: Result<Token, Error>)
      requires Valid()
      modifies this`peekBuf, tokens
      ensures Valid()
      ensures r == Head(old(Pending()))
      ensures r.Success? ==> Pending() == old(Pending()) && peekBuf == [r.value]
    {
      if peekBuf == [] {
        ghost var before := tokens.State();
        var t := tokens.Read();
        ScanShape(tokens.input, tokens.Delims(), before);
        if t.Failure? {
          return t;
        }
        peekBuf := peekBuf + [t.value];
      }
      r := Success(peekBuf[|peekBuf| - 1]);
    }

    /** read_token: the token is consumed even when it has the wrong type. */
    method ReadToken(expected: TokenKind) returns (r: Result<Token, Error>)
      requires Valid()
      modifies this`peekBuf, tokens
      ensures Valid()
      ensures r == Expect(Head(old(Pending())), expected)
      ensures Head(old(Pending())).Success? ==> Pending() == Tail(old(Pending()))
    {
      var p := PeekToken();
      if p.Failure? {
        return p;
      }
      var token := peekBuf[0];
      peekBuf := peekBuf[1..];
      if token.kind != expected {
        return Failure(Error(UnexpectedToken, token.pos));
      }
      return Success(token);
    }

    /** read_element */
    method ReadElement() returns (r: Result<Element, Error>)
      requires Valid()
      modifies this`peekBuf, tokens
      ensures Valid()
      ensures Delivers(r, ReadElementAt(old(Pending())), Pending())
    {
      ghost var goal := ReadElementAt(Pending());
      var sep := ReadToken(ElementSeparator);
      if sep.Failure? {
        return Failure(sep.error);
      }
      var element := Element(sep.value.pos, []);
      var prev := sep.value;
      while true
        invariant Valid()
        invariant ElementBody(Pending(), prev.kind, element) == goal
        decreases |Pending().tokens|
      {
        var token := PeekToken();
        if token.Failure? {
          return Failure(token.error);
        }
        var t := token.value;
        if t.kind == Text {
          var text := ReadToken(Text);
          element := element.Append(Component(text.value.pos, text.value.value));
        } else if t.kind == ComponentSeparator {
          if prev.kind == ComponentSeparator || prev.kind == ElementSeparator {
            element := element.Append(Component(t.pos, ""));
          }
          var _ := ReadToken(ComponentSeparator);
        } else {
          if prev.kind == ComponentSeparator || prev.kind == ElementSeparator {
            element := element.Append(Component(t.pos, ""));
          }
          return Success(element);
        }
        prev := t;
      }
    }

    /** read_segment, which read returns */
    method ReadSegment() returns (r: Result<Option<Segment>, Error>)
      requires Valid()
      modifies this`peekBuf, tokens
      ensures Valid()
      ensures Delivers(r, SegmentAt(old(Pending())), Pending())
    {
      ghost var start := Pending();
      var token := PeekToken();
      if token.Failure? {
        return Failure(token.error);
      }
      if token.value.kind == Eof {
        return Success(None);
      }
      var name := ReadToken(Text);
      if name.Failure? {
        return Failure(name.error);
      }
      var segment := Segment(name.value.pos, name.value.value, []);
      ghost var goal := SegmentBody(Pending(), segment);
      assert SegmentAt(start) == (match goal
        case Failure(err) => Failure(err)
        case Success(Read(s, rest)) => Success(Read(Some(s), rest)));
      while true
        invariant Valid()
        invariant SegmentBody(Pending(), segment) == goal
        decreases |Pending().tokens|
      {
        token := PeekToken();
        if token.Failure? {
          return Failure(token.error);
        }
        var t := token.value;
        if t.kind == SegmentSeparator {
          var _ := ReadToken(SegmentSeparator);
          return Success(Some(segment));
        } else if t.kind == ElementSeparator {
          var e := ReadElement();
          if e.Failure? {
            return Failure(e.error);
          }
          segment := segment.Append(e.value);
        } else if t.kind == Eof {
          return Failure(Error(UnexpectedEndOfInput, t.pos));
        } else {
          return Failure(Error(UnexpectedToken, t.pos));
        }
      }
    }

    /** read_remaining */
    method ReadRemaining() returns (r: Result<seq<Segment>, Error>)
      requires Valid()
      modifies this`peekBuf, tokens
      ensures Valid()
      ensures r == ReadAll(old(Pending()))
    {
      ghost var goal := ReadAll(Pending());
      var segments: seq<Segment> := [];
      if goal.Success? {
        assert segments + goal.value == goal.value;
      }
      while true
        invariant Valid()
        invariant Prepend(segments, ReadAll(Pending())) == goal
        decreases |Pending().tokens|
      {
        ghost var before := Pending();
        var s := ReadSegment();
        if s.Failure? {
          return Failure(s.error);
        }
        if s.value.None? {
          assert segments + [] == segments;
          return Success(segments);
        }
        ReadAllStep(before);
        PrependAppend(segments, [s.value.value], ReadAll(Pending()));
        segments := segments + [s.value.value];
      }
    }
  }

  // ---------------------------------------------------------------------------------------
  // Properties of the assembly

  /** The number of tokens of kind k in ts. */
  function CountKind(ts: seq<Token>, k: TokenKind): nat
  {
    if ts == [] then 0 else (if ts[0].kind == k then 1 else 0) + CountKind(ts[1..], k)
  }

  lemma ConsumedConcat(a: Lexed, b: Lexed, c: Lexed)
    requires Suffix(b, a) && Suffix(c, b)
    ensures |c.tokens| <= |a.tokens| && Consumed(a, c) == Consumed(a, b) + Consumed(b, c)
  {
    var i := |a.tokens| - |b.tokens|;
    assert b.tokens == a.tokens[i..];
    assert Consumed(b, c) == a.tokens[i..][..|b.tokens| - |c.tokens|];
  }

  lemma CountConsumed(l: Lexed, rest: Lexed, k: TokenKind)
    requires l.tokens != [] && Suffix(rest, Tail(l))
    ensures |rest.tokens| <= |l.tokens|
    ensures CountKind(Consumed(l, rest), k)
         == (if l.tokens[0].kind == k then 1 else 0) + CountKind(Consumed(Tail(l), rest), k)
  {
    var c := Consumed(l, rest);
    assert c[0] == l.tokens[0];
    assert c[1..] == Consumed(Tail(l), rest);
  }

  lemma TailTextThenSeparator(l: Lexed)
    requires TextThenSeparator(l)
    ensures TextThenSeparator(Tail(l))
  {
    var t := Tail(l);
    if l.tokens != [] {
      forall i | 0 <= i < |t.tokens| && t.tokens[i].kind == Text
        ensures FollowedBySeparator(t, i)
      {
        assert l.tokens[i + 1] == t.tokens[i];
        TextFollowedAt(l, i + 1);
        if i + 2 < |l.tokens| {
          assert l.tokens[i + 2] == t.tokens[i + 1];
        }
      }
    }
  }

  /** read returns nil exactly when the next token at a segment boundary is eof. */
  lemma SegmentAtNone(l: Lexed)
    ensures (SegmentAt(l).Success? && SegmentAt(l).value.value.None?)
        <==> (Head(l).Success? && Head(l).value.kind == Eof)
  {
  }

  /** The loop of read_element keeps the element's position and only appends components. */
  lemma {:induction false} ElementBodyExtends(l: Lexed, prev: TokenKind, e: Element)
    ensures var r := ElementBody(l, prev, e);
      r.Success? ==> r.value.value.pos == e.pos && e.components <= r.value.value.components
    decreases |l.tokens|
  {
    var r := ElementBody(l, prev, e);
    if r.Success? && l.tokens != [] {
      var t := l.tokens[0];
      if t.kind == Text {
        var e' := e.Append(Component(t.pos, t.value));
        ElementBodyExtends(Tail(l), Text, e');
        assert r == ElementBody(Tail(l), Text, e');
        assert e.components <= e'.components;
      } else if t.kind == ComponentSeparator {
        var e' := CloseEmpty(e, prev, t.pos);
        ElementBodyExtends(Tail(l), ComponentSeparator, e');
        assert r == ElementBody(Tail(l), ComponentSeparator, e');
        assert e.components <= e'.components;
      }
    }
  }

  /**
   * A separator followed directly by another separator or by the end gives an empty component
   * at the position of that following token.
   */
  lemma EmptyComponentAt(l: Lexed, prev: TokenKind, e: Element)
    requires AfterSeparator(prev) && Head(l).Success? && Head(l).value.kind != Text
    ensures var r := ElementBody(l, prev, e);
      r.Success? ==> |r.value.value.components| > |e.components| &&
                     r.value.value.components[|e.components|] == Component(Head(l).value.pos, "")
  {
    var t := Head(l).value;
    var e' := e.Append(Component(t.pos, ""));
    if l.tokens != [] && t.kind == ComponentSeparator {
      ElementBodyExtends(Tail(l), ComponentSeparator, e');
    }
  }

  function Open(prev: TokenKind): nat
  {
    if AfterSeparator(prev) then 1 else 0
  }

  /**
   * The loop of read_element adds one component per component separator it consumes, plus
   * one for the component a separator leaves open.
   */
  lemma {:induction false} ElementBodyCount(l: Lexed, prev: TokenKind, e: Element)
    requires TextThenSeparator(l) && EndsWell(l)
    requires prev == Text || AfterSeparator(prev)
    requires prev == Text && l.tokens != [] ==> l.tokens[0].kind != Text
    ensures var r := ElementBody(l, prev, e);
      r.Success? ==>
        |r.value.value.components| == |e.components| + Open(prev) + CountKind(Consumed(l, r.value.rest), ComponentSeparator)
    decreases |l.tokens|
  {
    var r := ElementBody(l, prev, e);
    if r.Success? && l.tokens != [] {
      var t := l.tokens[0];
      if t.kind == Text || t.kind == ComponentSeparator {
        TailTextThenSeparator(l);
        CountConsumed(l, r.value.rest, ComponentSeparator);
        if t.kind == Text {
          ElementBodyCount(Tail(l), Text, e.Append(Component(t.pos, t.value)));
        } else {
          ElementBodyCount(Tail(l), ComponentSeparator, CloseEmpty(e, prev, t.pos));
        }
      } else {
        assert Consumed(l, r.value.rest) == [];
      }
    } else if r.Success? {
      assert Consumed(l, r.value.rest) == [];
    }
  }

  /**
   * An element starts at its element separator, and has as many components as it has
   * component separators, plus one; so it has at least one.
   */
  lemma ElementShape(l: Lexed)
    requires TextThenSeparator(l) && EndsWell(l)
    ensures var r := ReadElementAt(l);
      r.Success? ==>
        Head(l).Success? && Head(l).value.kind == ElementSeparator &&
        r.value.value.pos == Head(l).value.pos &&
        |r.value.value.components| == 1 + CountKind(Consumed(l, r.value.rest), ComponentSeparator) &&
        |r.value.value.components| >= 1
  {
    var r := ReadElementAt(l);
    if r.Success? {
      var sep := Head(l).value;
      TailTextThenSeparator(l);
      ElementBodyExtends(Tail(l), ElementSeparator, Element(sep.pos, []));
      ElementBodyCount(Tail(l), ElementSeparator, Element(sep.pos, []));
      CountConsumed(l, r.value.rest, ComponentSeparator);
    }
  }

  /**
   * The loop of read_segment keeps the name and position and only appends elements, and its
   * last consumed token is the segment separator.
   */
  lemma {:induction false} SegmentBodyShape(l: Lexed, s: Segment)
    ensures var r := SegmentBody(l, s);
      r.Success? ==>
        r.value.value.pos == s.pos && r.value.value.name == s.name &&
        s.elements <= r.value.value.elements &&
        |Consumed(l, r.value.rest)| > 0 &&
        Consumed(l, r.value.rest)[|Consumed(l, r.value.rest)| - 1].kind == SegmentSeparator
    decreases |l.tokens|
  {
    var r := SegmentBody(l, s);
    if r.Success? {
      var t := l.tokens[0];
      if t.kind == SegmentSeparator {
        assert Consumed(l, r.value.rest) == [t];
      } else {
        var Read(e, rest) := ReadElementAt(l).value;
        SegmentBodyShape(rest, s.Append(e));
        ConsumedConcat(l, rest, r.value.rest);
      }
    }
  }

  /**
   * A segment's name and position are those of its first token, which is text; the segment
   * separator that ends it is consumed with it.
   */
  lemma SegmentShape(l: Lexed)
    ensures var r := SegmentAt(l);
      r.Success? && r.value.value.Some? ==>
        Head(l).Success? && Head(l).value.kind == Text &&
        r.value.value.value.pos == Head(l).value.pos && r.value.value.value.name == Head(l).value.value &&
        Consumed(l, r.value.rest)[|Consumed(l, r.value.rest)| - 1].kind == SegmentSeparator
  {
    var r := SegmentAt(l);
    if r.Success? && r.value.value.Some? {
      var t := Head(l).value;
      SegmentBodyShape(Tail(l), Segment(t.pos, t.value, []));
      ConsumedConcat(l, Tail(l), r.value.rest);
    }
  }

  /**
   * Errors: eof where a segment still needs its separator is an unexpected end of input at the
   * eof token; any other token after a segment name or an element is unexpected.
   */
  lemma SegmentBodyErrors(l: Lexed, s: Segment)
    requires EndsWell(l) && Head(l).Success?
    ensures Head(l).value.kind == Eof ==>
              SegmentBody(l, s) == Failure(Error(UnexpectedEndOfInput, Head(l).value.pos))
    ensures Head(l).value.kind == Text || Head(l).value.kind == ComponentSeparator ==>
              SegmentBody(l, s) == Failure(Error(UnexpectedToken, Head(l).value.pos))
  {
  }

  lemma SegmentAtErrors(l: Lexed)
    requires Head(l).Success? && Head(l).value.kind != Eof && Head(l).value.kind != Text
    ensures SegmentAt(l) == Failure(Error(UnexpectedToken, Head(l).value.pos))
  {
  }

  function At(column: int, kind: TokenKind, value: string): Token
  {
    Token(Position(1, column), kind, value)
  }

  /** A component separator inside an element closes an empty component after a separator and goes on. */
  lemma ComponentSeparatorStep(t: Token, l: Lexed, prev: TokenKind, e: Element)
    requires t.kind == ComponentSeparator
    ensures ElementBody(Lexed([t] + l.tokens, l.end), prev, e) == ElementBody(l, ComponentSeparator, CloseEmpty(e, prev, t.pos))
  {
    assert Tail(Lexed([t] + l.tokens, l.end)) == l;
  }

  /** Any token but text or a component separator ends the element and is left unread. */
  lemma ElementEndStep(t: Token, l: Lexed, prev: TokenKind, e: Element)
    requires t.kind != Text && t.kind != ComponentSeparator
    ensures ElementBody(Lexed([t] + l.tokens, l.end), prev, e) == Success(Read(CloseEmpty(e, prev, t.pos), Lexed([t] + l.tokens, l.end)))
  {
  }

  /** +::' read as an element: three empty components at columns 14, 15 and 16. */
  lemma EmptyComponentsElement(eof: Result<Token, Error>)
    ensures ReadElementAt(Lexed([At(13, ElementSeparator, "+"), At(14, ComponentSeparator, ":"),
                                 At(15, ComponentSeparator, ":"), At(16, SegmentSeparator, "'")], eof))
         == Success(Read(Element(Position(1, 13), [Component(Position(1, 14), ""), Component(Position(1, 15), ""),
                                                   Component(Position(1, 16), "")]),
                         Lexed([At(16, SegmentSeparator, "'")], eof)))
  {
    var t13, t14, t15, t16 := At(13, ElementSeparator, "+"), At(14, ComponentSeparator, ":"),
                              At(15, ComponentSeparator, ":"), At(16, SegmentSeparator, "'");
    var c14, c15, c16 := Component(Position(1, 14), ""), Component(Position(1, 15), ""), Component(Position(1, 16), "");
    var l4 := Lexed([t16], eof);
    var l3 := Lexed([t15, t16], eof);
    var l2 := Lexed([t14, t15, t16], eof);
    var l1 := Lexed([t13, t14, t15, t16], eof);
    assert [t15] + l4.tokens == l3.tokens && [t14] + l3.tokens == l2.tokens;
    assert Tail(l1) == l2;
    var e0 := Element(Position(1, 13), []);
    var e1 := Element(Position(1, 13), [c14]);
    var e2 := Element(Position(1, 13), [c14, c15]);
    assert e0.Append(c14) == e1 && e1.Append(c15) == e2 by {
      assert [] + [c14] == [c14] && [c14] + [c15] == [c14, c15];
    }
    assert e2.Append(c16) == Element(Position(1, 13), [c14, c15, c16]) by {
      assert [c14, c15] + [c16] == [c14, c15, c16];
    }
    ComponentSeparatorStep(t14, l3, ElementSeparator, e0);
    ComponentSeparatorStep(t15, l4, ComponentSeparator, e1);
    ElementEndStep(t16, Lexed([], eof), ComponentSeparator, e2);
  }

  /** AAA+::' gives one element with three empty components at columns 14, 15 and 16. */
  lemma EmptyComponentsVector()
    ensures var eof := Success(At(17, Eof, []));
      SegmentAt(Lexed([At(10, Text, "AAA"), At(13, ElementSeparator, "+"), At(14, ComponentSeparator, ":"),
                       At(15, ComponentSeparator, ":"), At(16, SegmentSeparator, "'")], eof))
      == Success(Read(Some(Segment(Position(1, 10), "AAA",
                                   [Element(Position(1, 13), [Component(Position(1, 14), ""),
                                                              Component(Position(1, 15), ""),
                                                              Component(Position(1, 16), "")])])),
                      Lexed([], eof)))
  {
    var eof := Success(At(17, Eof, []));
    var l4 := Lexed([At(16, SegmentSeparator, "'")], eof);
    var l1 := Lexed([At(13, ElementSeparator, "+"), At(14, ComponentSeparator, ":"),
                     At(15, ComponentSeparator, ":"), At(16, SegmentSeparator, "'")], eof);
    var l0 := Lexed([At(10, Text, "AAA")] + l1.tokens, eof);
    assert Tail(l0) == l1;
    var e := Element(Position(1, 13), [Component(Position(1, 14), ""), Component(Position(1, 15), ""),
                                       Component(Position(1, 16), "")]);
    EmptyComponentsElement(eof);
    var s0 := Segment(Position(1, 10), "AAA", []);
    assert s0.Append(e).elements == [e];
    assert SegmentBody(l4, s0.Append(e)) == Success(Read(s0.Append(e), Lexed([], eof)));
    assert SegmentBody(l1, s0) == Success(Read(s0.Append(e), Lexed([], eof)));
    assert l0.tokens == [At(10, Text, "AAA"), At(13, ElementSeparator, "+"), At(14, ComponentSeparator, ":"),
                         At(15, ComponentSeparator, ":"), At(16, SegmentSeparator, "'")];
  }

  /** AAA+x: ends in an unexpected end of input at column 16. */
  lemma EndOfInputVector()
    ensures SegmentAt(Lexed([At(10, Text, "AAA"), At(13, ElementSeparator, "+"), At(14, Text, "x"),
                             At(15, ComponentSeparator, ":")], Success(At(16, Eof, []))))
         == Failure(Error(UnexpectedEndOfInput, Position(1, 16)))
  {
    var eof := Success(At(16, Eof, []));
    var l4 := Lexed([], eof);
    var l3 := Lexed([At(15, ComponentSeparator, ":")], eof);
    var l2 := Lexed([At(14, Text, "x")] + l3.tokens, eof);
    var l1 := Lexed([At(13, ElementSeparator, "+")] + l2.tokens, eof);
    var l0 := Lexed([At(10, Text, "AAA")] + l1.tokens, eof);
    assert Tail(l0) == l1 && Tail(l1) == l2 && Tail(l2) == l3 && Tail(l3) == l4;
    var e0 := Element(Position(1, 13), []);
    var e1 := e0.Append(Component(Position(1, 14), "x"));
    var e2 := e1.Append(Component(Position(1, 16), ""));
    assert ElementBody(l4, ComponentSeparator, e1) == Success(Read(e2, l4));
    assert ElementBody(l3, Text, e1) == Success(Read(e2, l4));
    assert ElementBody(l2, ElementSeparator, e0) == Success(Read(e2, l4));
    assert ReadElementAt(l1) == Success(Read(e2, l4));
    var s0 := Segment(Position(1, 10), "AAA", []);
    assert SegmentBody(l4, s0.Append(e2)) == Failure(Error(UnexpectedEndOfInput, Position(1, 16)));
    assert SegmentBody(l1, s0) == Failure(Error(UnexpectedEndOfInput, Position(1, 16)));
  }
}
