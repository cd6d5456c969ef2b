/**
 * Reading written segments back: the text Segment#to_edifact and SegmentBuilder#to_edifact
 * write, tokenized by TokenStream under the default delimiters and assembled by SegmentStream,
 * gives back the segments that were written.
 *
 * The proof has two layers. The tokens: a written segment is lexed into the tokens
 * SegmentTokens lists, one text token per name or non-empty component text and one token
 * per delimiter. The assembly: read_segment over those tokens gives ReadSegment, which has
 * the written name and texts and the positions the tokenizer reports.
 */
module RoundTrip {
  import opened Common
  import opened Tokens
  import opened Nodes
  import opened Segments
  import Config
  import Builder

  /** The tokenizer between two tokens, at index i and position p of the input. */
  function CleanAt(i: nat, p: Position): ScanState
  {
    ScanState(i, p, p, [])
  }

  /** The token a separator character becomes. */
  function SeparatorKind(c: char): TokenKind
  {
    if c == '\'' then SegmentSeparator else if c == '+' then ElementSeparator else ComponentSeparator
  }

  /** A segment name the tokenizer reads as one text token. */
  predicate PlainName(n: string)
  {
    n != [] && forall i :: 0 <= i < |n| ==> n[i] !in Specials
  }

  /**
   * What Segment#to_edifact writes so that it reads back: a plain name, and at least one
   * component in every element (an element without components writes a bare '+', which
   * reads as one empty component).
   */
  predicate Writable(s: Segment)
  {
    PlainName(s.name) && forall m :: 0 <= m < |s.elements| ==> s.elements[m].components != []
  }

  // ---------------------------------------------------------------------------------------
  // The tokens of written text

  /** The text token of a component text, or none for an empty text. */
  function TextTokens(p: Position, t: string): seq<Token>
  {
    if t == [] then [] else [Token(p, Text, t)]
  }

  /** The tokens of components joined with ':', written from position p on. */
  function JoinTokens(p: Position, cs: seq<Component>): seq<Token>
    decreases |cs|
  {
    if cs == [] then []
    else if |cs| == 1 then TextTokens(p, cs[0].text)
    else
      var q := AdvanceBy(p, Escape(cs[0].text));
      TextTokens(p, cs[0].text) + [Token(q, ComponentSeparator, [':'])] + JoinTokens(Advance(q, ':'), cs[1..])
  }

  /** The tokens of Element#to_edifact written at p. */
  function ElementTokens(p: Position, e: Element): seq<Token>
  {
    [Token(p, ElementSeparator, ['+'])] + JoinTokens(Advance(p, '+'), e.components)
  }

  function ElementsTokens(p: Position, es: seq<Element>): seq<Token>
    decreases |es|
  {
    if es == [] then []
    else ElementTokens(p, es[0]) + ElementsTokens(AdvanceBy(p, ElementToEdifact(es[0])), es[1..])
  }

  /** The tokens of Segment#to_edifact written at p. */
  function SegmentTokens(p: Position, s: Segment): seq<Token>
  {
    var q := AdvanceBy(p, s.name);
    [Token(p, Text, s.name)] + ElementsTokens(q, s.elements)
      + [Token(AdvanceBy(q, ElementsToEdifact(s.elements)), SegmentSeparator, ['\''])]
  }

  function SegmentsTokens(p: Position, ss: seq<Segment>): seq<Token>
    decreases |ss|
  {
    if ss == [] then []
    else SegmentTokens(p, ss[0]) + SegmentsTokens(AdvanceBy(p, SegmentToEdifact(ss[0])), ss[1..])
  }

  // ---------------------------------------------------------------------------------------
  // What read_segment makes of them

  /** The components read from components joined with ':' from position p on. */
  function ReadComponents(p: Position, cs: seq<Component>): seq<Component>
    decreases |cs|
  {
    if cs == [] then []
    else [Component(p, cs[0].text)] + ReadComponents(Advance(AdvanceBy(p, Escape(cs[0].text)), ':'), cs[1..])
  }

  /** The element read from the text of e written at p. */
  function ReadElement(p: Position, e: Element): Element
  {
    Element(p, ReadComponents(Advance(p, '+'), e.components))
  }

  function ReadElements(p: Position, es: seq<Element>): seq<Element>
    decreases |es|
  {
    if es == [] then []
    else [ReadElement(p, es[0])] + ReadElements(AdvanceBy(p, ElementToEdifact(es[0])), es[1..])
  }

  /** The segment read from the text of s written at p. */
  function ReadSegment(p: Position, s: Segment): Segment
  {
    Segment(p, s.name, ReadElements(AdvanceBy(p, s.name), s.elements))
  }

  function ReadSegments(p: Position, ss: seq<Segment>): seq<Segment>
    decreases |ss|
  {
    if ss == [] then []
    else [ReadSegment(p, ss[0])] + ReadSegments(AdvanceBy(p, SegmentToEdifact(ss[0])), ss[1..])
  }

  // ---------------------------------------------------------------------------------------
  // Sequences and positions

  /** Tokens a, then tokens b, then what follows rest. */
  lemma Chain(l: Lexed, mid: Lexed, rest: Lexed, a: seq<Token>, b: seq<Token>)
    requires l == Lexed(a + mid.tokens, mid.end) && mid == Lexed(b + rest.tokens, rest.end)
    ensures l == Lexed(a + b + rest.tokens, rest.end)
  {
    assert a + (b + rest.tokens) == a + b + rest.tokens;
  }

  /** The two parts of a slice that holds a, then b. */
  lemma SliceApart(input: string, i: nat, j: nat, a: string, b: string)
    requires i + |a| + |b| == j <= |input| && input[i..j] == a + b
    ensures input[i..i + |a|] == a && input[i + |a|..j] == b
  {
    assert input[i..i + |a|] == input[i..j][..|a|];
    assert input[i + |a|..j] == input[i..j][|a|..];
  }

  /** The first character of a slice and the slice after it. */
  lemma SliceFirst(input: string, i: nat, j: nat, c: char, b: string)
    requires i + 1 + |b| == j <= |input| && input[i..j] == [c] + b
    ensures input[i] == c && input[i + 1..j] == b
  {
    assert input[i] == input[i..j][0];
    assert input[i + 1..j] == input[i..j][1..];
  }

  /** The position after a component, its ':' and the components after it. */
  lemma AdvanceJoin(p: Position, e: string, rest: string)
    ensures AdvanceBy(p, e + [':'] + rest) == AdvanceBy(Advance(AdvanceBy(p, e), ':'), rest)
  {
    AdvanceBySnoc(p, e, ':');
    AdvanceByAppend(p, e + [':'], rest);
  }

  lemma AdvanceCons(p: Position, c: char, s: string)
    ensures AdvanceBy(p, [c] + s) == AdvanceBy(Advance(p, c), s)
  {
    assert ([c] + s)[1..] == s;
  }

  /** A name without special characters is written as it is. */
  lemma {:induction false} EscapePlain(t: string)
    requires forall i :: 0 <= i < |t| ==> t[i] !in Specials
    ensures Escape(t) == t
  {
    if t != [] {
      EscapePlain(t[1..]);
    }
  }

  /** The text of one or more elements starts with the first one's '+'. */
  lemma ElementsStart(es: seq<Element>)
    requires es != []
    ensures ElementsToEdifact(es) == ElementToEdifact(es[0]) + ElementsToEdifact(es[1..])
    ensures ElementsToEdifact(es)[0] == '+'
  {
  }

  /** The text of a group of segments is the first segment's text, then the others'. */
  lemma TextCons(ss: seq<Segment>)
    requires ss != []
    ensures Builder.Text(ss) == SegmentToEdifact(ss[0]) + Builder.Text(ss[1..])
  {
    Builder.TextSplit(ss, 0);
    assert ss[..0] == [];
    assert Builder.Children([]) == [];
  }

  /** Where the name, the elements and the terminator of a written segment lie in the input. */
  lemma SegmentSlices(input: string, i: nat, j: nat, s: Segment)
    requires j == i + |SegmentToEdifact(s)| <= |input| && input[i..j] == SegmentToEdifact(s)
    ensures var k := i + |s.name|;
      && input[i..k] == s.name
      && j == k + |ElementsToEdifact(s.elements)| + 1
      && input[k..j - 1] == ElementsToEdifact(s.elements) && input[j - 1] == '\''
      && (input[k] == '+' || input[k] == '\'')
  {
    var name := s.name;
    var body := ElementsToEdifact(s.elements);
    var k := i + |name|;
    assert SegmentToEdifact(s) == name + (body + ['\'']);
    SliceApart(input, i, j, name, body + ['\'']);
    SliceApart(input, k, j, body, ['\'']);
    assert input[j - 1] == input[j - 1..j][0];
    if s.elements != [] {
      ElementsStart(s.elements);
      assert input[k] == input[k..j - 1][0];
    }
  }

  /** The position after a written segment, and after its name and elements. */
  lemma SegmentAdvance(p: Position, s: Segment)
    ensures var r := AdvanceBy(p, s.name);
      AdvanceBy(p, SegmentToEdifact(s)) == Advance(AdvanceBy(r, ElementsToEdifact(s.elements)), '\'')
  {
    AdvanceByAppend(p, s.name, ElementsToEdifact(s.elements));
    AdvanceBySnoc(p, s.name + ElementsToEdifact(s.elements), '\'');
  }

  // ---------------------------------------------------------------------------------------
  // The tokenizer over written text

  lemma LexSeparatorHere(input: string, i: nat, p: Position)
    requires i < |input| && Terminates(DefaultDelimiters, input[i])
    ensures var rest := Lex(input, DefaultDelimiters, CleanAt(i + 1, Advance(p, input[i])));
      Lex(input, DefaultDelimiters, CleanAt(i, p)) == Lexed([Token(p, SeparatorKind(input[i]), [input[i]])] + rest.tokens, rest.end)
  {
  }

  /** A separator character is one separator token, and the scan goes on just after it. */
  lemma LexSeparator(input: string, i: nat, p: Position, c: char, j: nat, q: Position)
    requires i < |input| && input[i] == c && Terminates(DefaultDelimiters, c)
    requires j == i + 1 && q == Advance(p, c)
    ensures Lex(input, DefaultDelimiters, CleanAt(i, p))
         == Lexed([Token(p, SeparatorKind(c), [c])] + Lex(input, DefaultDelimiters, CleanAt(j, q)).tokens,
                  Lex(input, DefaultDelimiters, CleanAt(j, q)).end)
  {
    LexSeparatorHere(input, i, p);
  }

  /** The scan over an escaped non-empty text before a separator yields its text token. */
  lemma ScanText(input: string, i: nat, p: Position, text: string, j: nat, q: Position)
    requires text != [] && j == i + |Escape(text)| && q == AdvanceBy(p, Escape(text))
    requires j < |input| && input[i..j] == Escape(text) && Terminates(DefaultDelimiters, input[j])
    ensures Scan(input, DefaultDelimiters, CleanAt(i, p)) == Scanned(Success(Token(p, Text, text)), CleanAt(j, q))
  {
    assert Config.Delims(Config.Default) == DefaultDelimiters;
    assert Config.Escape(Config.Default, text) == Escape(text) by {
      Config.DefaultEscape(text);
    }
    Config.EscapeReadsBack(Config.Default, input, CleanAt(i, p), text);
    ScanShape(input, DefaultDelimiters, CleanAt(i, p));
    ScanAdvance(input, DefaultDelimiters, CleanAt(i, p));
  }

  /** An escaped non-empty text before a separator is one text token holding the text. */
  lemma LexText(input: string, i: nat, p: Position, text: string, j: nat, q: Position)
    requires text != [] && j == i + |Escape(text)| && q == AdvanceBy(p, Escape(text))
    requires j < |input| && input[i..j] == Escape(text) && Terminates(DefaultDelimiters, input[j])
    ensures Lex(input, DefaultDelimiters, CleanAt(i, p))
         == Lexed([Token(p, Text, text)] + Lex(input, DefaultDelimiters, CleanAt(j, q)).tokens,
                  Lex(input, DefaultDelimiters, CleanAt(j, q)).end)
  {
    ScanText(input, i, p, text, j, q);
  }

  /** An escaped component text before a separator: its text token, if it is not empty. */
  lemma LexComponent(input: string, i: nat, p: Position, t: string, j: nat, q: Position)
    requires j == i + |Escape(t)| && q == AdvanceBy(p, Escape(t))
    requires j < |input| && input[i..j] == Escape(t) && Terminates(DefaultDelimiters, input[j])
    ensures Lex(input, DefaultDelimiters, CleanAt(i, p))
         == Lexed(TextTokens(p, t) + Lex(input, DefaultDelimiters, CleanAt(j, q)).tokens, Lex(input, DefaultDelimiters, CleanAt(j, q)).end)
  {
    if t == [] {
      assert Escape(t) == [];
    } else {
      LexText(input, i, p, t, j, q);
    }
  }

  /** An escaped component text and the ':' after it: its text token, if any, and the ':' token. */
  lemma LexComponentColon(input: string, i: nat, p: Position, t: string, j: nat, q: Position)
    requires j == i + |Escape(t)| + 1 && q == Advance(AdvanceBy(p, Escape(t)), ':')
    requires j <= |input| && input[i..j - 1] == Escape(t) && input[j - 1] == ':'
    ensures Lex(input, DefaultDelimiters, CleanAt(i, p))
         == Lexed(TextTokens(p, t) + [Token(AdvanceBy(p, Escape(t)), ComponentSeparator, [':'])]
                    + Lex(input, DefaultDelimiters, CleanAt(j, q)).tokens,
                  Lex(input, DefaultDelimiters, CleanAt(j, q)).end)
  {
    var k := j - 1;
    var r := AdvanceBy(p, Escape(t));
    var mid := Lex(input, DefaultDelimiters, CleanAt(k, r));
    var rest := Lex(input, DefaultDelimiters, CleanAt(j, q));
    LexComponent(input, i, p, t, k, r);
    LexSeparator(input, k, r, ':', j, q);
    Chain(Lex(input, DefaultDelimiters, CleanAt(i, p)), mid, rest, TextTokens(p, t), [Token(r, ComponentSeparator, [':'])]);
  }

  /** Escaped components joined with ':' and followed by a separator are lexed as JoinTokens. */
  lemma {:induction false} LexJoin(input: string, i: nat, p: Position, cs: seq<Component>, j: nat, q: Position)
    requires cs != [] && j == i + |JoinComponents(cs)| && q == AdvanceBy(p, JoinComponents(cs))
    requires j < |input| && input[i..j] == JoinComponents(cs) && Terminates(DefaultDelimiters, input[j])
    ensures Lex(input, DefaultDelimiters, CleanAt(i, p))
         == Lexed(JoinTokens(p, cs) + Lex(input, DefaultDelimiters, CleanAt(j, q)).tokens, Lex(input, DefaultDelimiters, CleanAt(j, q)).end)
    decreases |cs|
  {
    var t := cs[0].text;
    if |cs| == 1 {
      LexComponent(input, i, p, t, j, q);
    } else {
      var e := Escape(t);
      var more := JoinComponents(cs[1..]);
      assert JoinComponents(cs) == (e + [':']) + more;
      var k := i + |e| + 1;
      var r := Advance(AdvanceBy(p, e), ':');
      SliceApart(input, i, j, e + [':'], more);
      SliceApart(input, i, k, e, [':']);
      AdvanceJoin(p, e, more);
      var mid := Lex(input, DefaultDelimiters, CleanAt(k, r));
      var rest := Lex(input, DefaultDelimiters, CleanAt(j, q));
      var head := TextTokens(p, t) + [Token(AdvanceBy(p, e), ComponentSeparator, [':'])];
      LexComponentColon(input, i, p, t, k, r);
      LexJoin(input, k, r, cs[1..], j, q);
      Chain(Lex(input, DefaultDelimiters, CleanAt(i, p)), mid, rest, head, JoinTokens(r, cs[1..]));
    }
  }

  /** Element#to_edifact of an element with components, followed by a separator. */
  lemma LexElement(input: string, i: nat, p: Position, e: Element, j: nat, q: Position)
    requires e.components != []
    requires j == i + |ElementToEdifact(e)| && q == AdvanceBy(p, ElementToEdifact(e))
    requires j < |input| && input[i..j] == ElementToEdifact(e) && Terminates(DefaultDelimiters, input[j])
    ensures Lex(input, DefaultDelimiters, CleanAt(i, p))
         == Lexed(ElementTokens(p, e) + Lex(input, DefaultDelimiters, CleanAt(j, q)).tokens, Lex(input, DefaultDelimiters, CleanAt(j, q)).end)
  {
    var join := JoinComponents(e.components);
    var r := Advance(p, '+');
    SliceFirst(input, i, j, '+', join);
    AdvanceCons(p, '+', join);
    var mid := Lex(input, DefaultDelimiters, CleanAt(i + 1, r));
    var rest := Lex(input, DefaultDelimiters, CleanAt(j, q));
    LexSeparator(input, i, p, '+', i + 1, r);
    LexJoin(input, i + 1, r, e.components, j, q);
    Chain(Lex(input, DefaultDelimiters, CleanAt(i, p)), mid, rest, [Token(p, ElementSeparator, ['+'])], JoinTokens(r, e.components));
  }

  /** The elements of a segment, each with components, followed by a separator. */
  lemma {:induction false} LexElements(input: string, i: nat, p: Position, es: seq<Element>, j: nat, q: Position)
    requires forall m :: 0 <= m < |es| ==> es[m].components != []
    requires j == i + |ElementsToEdifact(es)| && q == AdvanceBy(p, ElementsToEdifact(es))
    requires j < |input| && input[i..j] == ElementsToEdifact(es) && Terminates(DefaultDelimiters, input[j])
    ensures Lex(input, DefaultDelimiters, CleanAt(i, p))
         == Lexed(ElementsTokens(p, es) + Lex(input, DefaultDelimiters, CleanAt(j, q)).tokens, Lex(input, DefaultDelimiters, CleanAt(j, q)).end)
    decreases |es|
  {
    if es != [] {
      var first := ElementToEdifact(es[0]);
      var more := ElementsToEdifact(es[1..]);
      ElementsStart(es);
      var k := i + |first|;
      var r := AdvanceBy(p, first);
      SliceApart(input, i, j, first, more);
      AdvanceByAppend(p, first, more);
      if es[1..] != [] {
        ElementsStart(es[1..]);
        assert input[k] == input[k..j][0];
      }
      var mid := Lex(input, DefaultDelimiters, CleanAt(k, r));
      var rest := Lex(input, DefaultDelimiters, CleanAt(j, q));
      LexElement(input, i, p, es[0], k, r);
      LexElements(input, k, r, es[1..], j, q);
      Chain(Lex(input, DefaultDelimiters, CleanAt(i, p)), mid, rest, ElementTokens(p, es[0]), ElementsTokens(r, es[1..]));
    } else {
      assert ElementsTokens(p, es) == [];
    }
  }

  /** The elements of a segment and the segment terminator after them. */
  lemma LexSegmentBody(input: string, i: nat, p: Position, es: seq<Element>, j: nat, q: Position)
    requires forall m :: 0 <= m < |es| ==> es[m].components != []
    requires j == i + |ElementsToEdifact(es)| + 1 && q == Advance(AdvanceBy(p, ElementsToEdifact(es)), '\'')
    requires j <= |input| && input[i..j - 1] == ElementsToEdifact(es) && input[j - 1] == '\''
    ensures Lex(input, DefaultDelimiters, CleanAt(i, p))
         == Lexed(ElementsTokens(p, es) + [Token(AdvanceBy(p, ElementsToEdifact(es)), SegmentSeparator, ['\''])]
                    + Lex(input, DefaultDelimiters, CleanAt(j, q)).tokens,
                  Lex(input, DefaultDelimiters, CleanAt(j, q)).end)
  {
    var k := j - 1;
    var r := AdvanceBy(p, ElementsToEdifact(es));
    var mid := Lex(input, DefaultDelimiters, CleanAt(k, r));
    var rest := Lex(input, DefaultDelimiters, CleanAt(j, q));
    LexElements(input, i, p, es, k, r);
    LexSeparator(input, k, r, '\'', j, q);
    Chain(Lex(input, DefaultDelimiters, CleanAt(i, p)), mid, rest, ElementsTokens(p, es), [Token(r, SegmentSeparator, ['\''])]);
  }

  /** A plain segment name before a separator is one text token. */
  lemma LexName(input: string, i: nat, p: Position, name: string, j: nat, q: Position)
    requires PlainName(name) && j == i + |name| && q == AdvanceBy(p, name)
    requires j < |input| && input[i..j] == name && (input[j] == '+' || input[j] == '\'')
    ensures Lex(input, DefaultDelimiters, CleanAt(i, p))
         == Lexed([Token(p, Text, name)] + Lex(input, DefaultDelimiters, CleanAt(j, q)).tokens,
                  Lex(input, DefaultDelimiters, CleanAt(j, q)).end)
  {
    EscapePlain(name);
    LexComponent(input, i, p, name, j, q);
  }

  /** Segment#to_edifact of a writable segment is lexed as SegmentTokens. */
  lemma LexSegment(input: string, i: nat, p: Position, s: Segment, j: nat, q: Position)
    requires Writable(s)
    requires j == i + |SegmentToEdifact(s)| && q == AdvanceBy(p, SegmentToEdifact(s))
    requires j <= |input| && input[i..j] == SegmentToEdifact(s)
    ensures Lex(input, DefaultDelimiters, CleanAt(i, p))
         == Lexed(SegmentTokens(p, s) + Lex(input, DefaultDelimiters, CleanAt(j, q)).tokens, Lex(input, DefaultDelimiters, CleanAt(j, q)).end)
  {
    var r := AdvanceBy(p, s.name);
    var tail := ElementsTokens(r, s.elements)
      + [Token(AdvanceBy(r, ElementsToEdifact(s.elements)), SegmentSeparator, ['\''])];
    SegmentSlices(input, i, j, s);
    LexName(input, i, p, s.name, i + |s.name|, r);
    SegmentAdvance(p, s);
    LexSegmentBody(input, i + |s.name|, r, s.elements, j, q);
    assert SegmentTokens(p, s) == [Token(p, Text, s.name)] + tail;
    Chain(Lex(input, DefaultDelimiters, CleanAt(i, p)), Lex(input, DefaultDelimiters, CleanAt(i + |s.name|, r)),
          Lex(input, DefaultDelimiters, CleanAt(j, q)), [Token(p, Text, s.name)], tail);
  }

  /** Writable segments written one after the other up to the end of the input, then eof. */
  lemma {:induction false} LexSegments(input: string, i: nat, p: Position, ss: seq<Segment>)
    requires forall k :: 0 <= k < |ss| ==> Writable(ss[k])
    requires i + |Builder.Text(ss)| == |input| && input[i..] == Builder.Text(ss)
    ensures Lex(input, DefaultDelimiters, CleanAt(i, p))
         == Lexed(SegmentsTokens(p, ss), Success(Token(AdvanceBy(p, Builder.Text(ss)), Eof, [])))
    decreases |ss|
  {
    if ss == [] {
      assert Builder.Text(ss) == [];
    } else {
      var first := SegmentToEdifact(ss[0]);
      var more := Builder.Text(ss[1..]);
      TextCons(ss);
      var k := i + |first|;
      var r := AdvanceBy(p, first);
      assert input[i..] == input[i..|input|];
      SliceApart(input, i, |input|, first, more);
      assert input[k..] == input[k..|input|];
      AdvanceByAppend(p, first, more);
      var mid := Lex(input, DefaultDelimiters, CleanAt(k, r));
      LexSegment(input, i, p, ss[0], k, r);
      LexSegments(input, k, r, ss[1..]);
      var eof := Lexed([], Success(Token(AdvanceBy(p, Builder.Text(ss)), Eof, [])));
      Chain(Lex(input, DefaultDelimiters, CleanAt(i, p)), mid, eof, SegmentTokens(p, ss[0]), SegmentsTokens(r, ss[1..]));
      assert SegmentsTokens(p, ss) + [] == SegmentsTokens(p, ss);
    }
  }

  // ---------------------------------------------------------------------------------------
  // SegmentStream over those tokens

  /** The token after an element: the next element's '+' or the segment terminator, at q. */
  predicate EndsElement(rest: Lexed, q: Position)
  {
    rest.tokens != [] && rest.tokens[0].pos == q &&
    (rest.tokens[0].kind == ElementSeparator || rest.tokens[0].kind == SegmentSeparator)
  }

  /** read_element's loop at a text token: the component is added and the loop goes on. */
  lemma TextThen(l: Lexed, prev: TokenKind, e: Element)
    requires l.tokens != [] && l.tokens[0].kind == Text
    ensures ElementBody(l, prev, e) == ElementBody(Tail(l), Text, e.Append(Component(l.tokens[0].pos, l.tokens[0].value)))
  {
  }

  /** read_element's loop at a ':': an empty component after a separator, and the loop goes on. */
  lemma ColonThen(l: Lexed, prev: TokenKind, e: Element)
    requires l.tokens != [] && l.tokens[0].kind == ComponentSeparator
    ensures ElementBody(l, prev, e) == ElementBody(Tail(l), ComponentSeparator, CloseEmpty(e, prev, l.tokens[0].pos))
  {
  }

  /** read_element's loop at any other token: an empty component after a separator, and the element ends. */
  lemma EndThen(l: Lexed, prev: TokenKind, e: Element)
    requires l.tokens != [] && l.tokens[0].kind != Text && l.tokens[0].kind != ComponentSeparator
    ensures ElementBody(l, prev, e) == Success(Read(CloseEmpty(e, prev, l.tokens[0].pos), l))
  {
  }

  /** read_segment's loop at an element separator: the element read is added and the loop goes on. */
  lemma ElementThen(l: Lexed, s: Segment)
    requires l.tokens != [] && l.tokens[0].kind == ElementSeparator && ReadElementAt(l).Success?
    ensures SegmentBody(l, s) == SegmentBody(ReadElementAt(l).value.rest, s.Append(ReadElementAt(l).value.value))
  {
  }

  /** read_segment's loop at the segment terminator: the segment is complete. */
  lemma TerminatorThen(l: Lexed, s: Segment)
    requires l.tokens != [] && l.tokens[0].kind == SegmentSeparator
    ensures SegmentBody(l, s) == Success(Read(s, Tail(l)))
  {
  }

  lemma TailCons(t: Token, ts: seq<Token>, end: Result<Token, Error>)
    ensures Tail(Lexed([t] + ts, end)) == Lexed(ts, end)
  {
    assert ([t] + ts)[1..] == ts;
  }

  lemma Assoc(a: seq<Token>, b: seq<Token>, c: seq<Token>)
    ensures a + b + c == a + (b + c)
  {
  }

  /** The tokens of one component and the ':' after it, in front of the tokens of the rest. */
  lemma JoinShape(p: Position, cs: seq<Component>, rest: Lexed)
    requires |cs| > 1
    ensures var q := AdvanceBy(p, Escape(cs[0].text));
      var colon := Token(q, ComponentSeparator, [':']);
      var after := Lexed(JoinTokens(Advance(q, ':'), cs[1..]) + rest.tokens, rest.end);
      var l := Lexed(JoinTokens(p, cs) + rest.tokens, rest.end);
      && (cs[0].text == [] ==> l == Lexed([colon] + after.tokens, rest.end))
      && (cs[0].text != [] ==> l == Lexed([Token(p, Text, cs[0].text)] + ([colon] + after.tokens), rest.end))
  {
    var t := cs[0].text;
    var q := AdvanceBy(p, Escape(t));
    var colon := [Token(q, ComponentSeparator, [':'])];
    var more := JoinTokens(Advance(q, ':'), cs[1..]);
    assert JoinTokens(p, cs) == TextTokens(p, t) + colon + more;
    Assoc(TextTokens(p, t) + colon, more, rest.tokens);
    Assoc(TextTokens(p, t), colon, more + rest.tokens);
    if t == [] {
      assert [] + (colon + (more + rest.tokens)) == colon + (more + rest.tokens);
    }
  }

  /** The tokens of one last component in front of the tokens after the element. */
  lemma LastShape(p: Position, cs: seq<Component>, rest: Lexed)
    requires |cs| == 1
    ensures var l := Lexed(JoinTokens(p, cs) + rest.tokens, rest.end);
      && (cs[0].text == [] ==> l == rest)
      && (cs[0].text != [] ==> l == Lexed([Token(p, Text, cs[0].text)] + rest.tokens, rest.end))
  {
    if cs[0].text == [] {
      assert [] + rest.tokens == rest.tokens;
    }
  }

  /** The components read from one component in front of the others. */
  lemma ReadComponentsCons(p: Position, cs: seq<Component>, e: Element)
    requires cs != []
    ensures var r := Advance(AdvanceBy(p, Escape(cs[0].text)), ':');
      e.Append(Component(p, cs[0].text)).components + ReadComponents(r, cs[1..]) == e.components + ReadComponents(p, cs)
  {
    var c := Component(p, cs[0].text);
    var more := ReadComponents(Advance(AdvanceBy(p, Escape(cs[0].text)), ':'), cs[1..]);
    assert ReadComponents(p, cs) == [c] + more;
    assert e.Append(c).components == e.components + [c];
    assert e.components + [c] + more == e.components + ([c] + more);
  }

  /** read_element's loop over the last component: it is added, and the element ends after it. */
  lemma ElementBodyLast(p: Position, cs: seq<Component>, rest: Lexed, prev: TokenKind, e: Element)
    requires |cs| == 1 && AfterSeparator(prev) && EndsElement(rest, AdvanceBy(p, Escape(cs[0].text)))
    ensures ElementBody(Lexed(JoinTokens(p, cs) + rest.tokens, rest.end), prev, e)
         == Success(Read(e.Append(Component(p, cs[0].text)), rest))
  {
    var t := cs[0].text;
    LastShape(p, cs, rest);
    if t == [] {
      assert Escape(t) == [] && AdvanceBy(p, []) == p;
      EndThen(rest, prev, e);
    } else {
      TextThen(Lexed([Token(p, Text, t)] + rest.tokens, rest.end), prev, e);
      TailCons(Token(p, Text, t), rest.tokens, rest.end);
      EndThen(rest, Text, e.Append(Component(p, t)));
    }
  }

  /** read_element's loop over a component and its ':': it is added, and the loop goes on after the ':'. */
  lemma ElementBodyFirst(p: Position, cs: seq<Component>, rest: Lexed, prev: TokenKind, e: Element)
    requires |cs| > 1 && AfterSeparator(prev)
    ensures var r := Advance(AdvanceBy(p, Escape(cs[0].text)), ':');
      ElementBody(Lexed(JoinTokens(p, cs) + rest.tokens, rest.end), prev, e)
      == ElementBody(Lexed(JoinTokens(r, cs[1..]) + rest.tokens, rest.end), ComponentSeparator, e.Append(Component(p, cs[0].text)))
  {
    var t := cs[0].text;
    var q := AdvanceBy(p, Escape(t));
    var colon := Token(q, ComponentSeparator, [':']);
    var after := Lexed(JoinTokens(Advance(q, ':'), cs[1..]) + rest.tokens, rest.end);
    var atColon := Lexed([colon] + after.tokens, rest.end);
    JoinShape(p, cs, rest);
    TailCons(colon, after.tokens, rest.end);
    if t == [] {
      ColonThen(atColon, prev, e);
    } else {
      TextThen(Lexed([Token(p, Text, t)] + atColon.tokens, rest.end), prev, e);
      TailCons(Token(p, Text, t), atColon.tokens, rest.end);
      ColonThen(atColon, Text, e.Append(Component(p, t)));
    }
  }

  /**
   * The loop of read_element over joined components, entered after a separator, adds each
   * component with its text at the position ReadComponents gives it, an empty text included.
   */
  lemma {:induction false} ElementBodyJoin(p: Position, cs: seq<Component>, rest: Lexed, prev: TokenKind, e: Element)
    requires cs != [] && AfterSeparator(prev) && EndsElement(rest, AdvanceBy(p, JoinComponents(cs)))
    ensures ElementBody(Lexed(JoinTokens(p, cs) + rest.tokens, rest.end), prev, e)
         == Success(Read(Element(e.pos, e.components + ReadComponents(p, cs)), rest))
    decreases |cs|
  {
    var r := Advance(AdvanceBy(p, Escape(cs[0].text)), ':');
    ReadComponentsCons(p, cs, e);
    if |cs| == 1 {
      assert JoinComponents(cs) == Escape(cs[0].text);
      assert ReadComponents(r, cs[1..]) == [];
      assert e.Append(Component(p, cs[0].text)).components + [] == e.Append(Component(p, cs[0].text)).components;
      ElementBodyLast(p, cs, rest, prev, e);
    } else {
      assert JoinComponents(cs) == Escape(cs[0].text) + [':'] + JoinComponents(cs[1..]);
      AdvanceJoin(p, Escape(cs[0].text), JoinComponents(cs[1..]));
      ElementBodyFirst(p, cs, rest, prev, e);
      ElementBodyJoin(r, cs[1..], rest, ComponentSeparator, e.Append(Component(p, cs[0].text)));
    }
  }

  /** read_element over the tokens of a written element with components gives ReadElement. */
  lemma ReadElementTokens(p: Position, e: Element, rest: Lexed)
    requires e.components != [] && EndsElement(rest, AdvanceBy(p, ElementToEdifact(e)))
    ensures ReadElementAt(Lexed(ElementTokens(p, e) + rest.tokens, rest.end)) == Success(Read(ReadElement(p, e), rest))
  {
    var r := Advance(p, '+');
    var join := Lexed(JoinTokens(r, e.components) + rest.tokens, rest.end);
    var l := Lexed(ElementTokens(p, e) + rest.tokens, rest.end);
    assert l == Lexed([Token(p, ElementSeparator, ['+'])] + join.tokens, rest.end);
    TailCons(Token(p, ElementSeparator, ['+']), join.tokens, rest.end);
    AdvanceCons(p, '+', JoinComponents(e.components));
    ElementBodyJoin(r, e.components, rest, ElementSeparator, Element(p, []));
    assert [] + ReadComponents(r, e.components) == ReadComponents(r, e.components);
  }

  /** The tokens of written elements: the first element's, then the others'. */
  lemma ElementsShape(p: Position, es: seq<Element>, tail: Lexed)
    requires es != []
    ensures var mid := Lexed(ElementsTokens(AdvanceBy(p, ElementToEdifact(es[0])), es[1..]) + tail.tokens, tail.end);
      Lexed(ElementsTokens(p, es) + tail.tokens, tail.end) == Lexed(ElementTokens(p, es[0]) + mid.tokens, tail.end)
  {
    var more := ElementsTokens(AdvanceBy(p, ElementToEdifact(es[0])), es[1..]);
    assert ElementsTokens(p, es) == ElementTokens(p, es[0]) + more;
    Assoc(ElementTokens(p, es[0]), more, tail.tokens);
  }

  /** The elements read from one element in front of the others. */
  lemma ReadElementsCons(p: Position, es: seq<Element>, s: Segment)
    requires es != []
    ensures var s' := s.Append(ReadElement(p, es[0]));
      var r := AdvanceBy(p, ElementToEdifact(es[0]));
      Segment(s'.pos, s'.name, s'.elements + ReadElements(r, es[1..])) == Segment(s.pos, s.name, s.elements + ReadElements(p, es))
  {
    var r := AdvanceBy(p, ElementToEdifact(es[0]));
    assert ReadElements(p, es) == [ReadElement(p, es[0])] + ReadElements(r, es[1..]);
    assert s.elements + [ReadElement(p, es[0])] + ReadElements(r, es[1..])
        == s.elements + ([ReadElement(p, es[0])] + ReadElements(r, es[1..]));
  }

  /**
   * The loop of read_segment over the tokens of written elements and the terminator after
   * them appends ReadElements and leaves what follows the terminator.
   */
  lemma {:induction false} SegmentBodyTokens(p: Position, es: seq<Element>, tail: Lexed, s: Segment)
    requires forall m :: 0 <= m < |es| ==> es[m].components != []
    requires tail.tokens != [] && tail.tokens[0] == Token(AdvanceBy(p, ElementsToEdifact(es)), SegmentSeparator, ['\''])
    ensures SegmentBody(Lexed(ElementsTokens(p, es) + tail.tokens, tail.end), s)
         == Success(Read(Segment(s.pos, s.name, s.elements + ReadElements(p, es)), Tail(tail)))
    decreases |es|
  {
    if es == [] {
      assert Lexed(ElementsTokens(p, es) + tail.tokens, tail.end) == tail;
      TerminatorThen(tail, s);
      assert s.elements + [] == s.elements;
    } else {
      var first := ElementToEdifact(es[0]);
      var r := AdvanceBy(p, first);
      var mid := Lexed(ElementsTokens(r, es[1..]) + tail.tokens, tail.end);
      var l := Lexed(ElementTokens(p, es[0]) + mid.tokens, tail.end);
      var e := ReadElement(p, es[0]);
      assert tail.tokens[0].pos == AdvanceBy(r, ElementsToEdifact(es[1..])) && EndsElement(mid, r) by {
        ElementsStart(es);
        AdvanceByAppend(p, first, ElementsToEdifact(es[1..]));
        if es[1..] == [] {
          assert ElementsToEdifact(es[1..]) == [];
          assert mid == tail;
        }
      }
      assert ReadElementAt(l) == Success(Read(e, mid)) by {
        ReadElementTokens(p, es[0], mid);
      }
      ElementsShape(p, es, tail);
      ElementThen(l, s);
      SegmentBodyTokens(r, es[1..], tail, s.Append(e));
      ReadElementsCons(p, es, s);
    }
  }

  /** read_segment over the tokens of a writable segment gives ReadSegment. */
  lemma SegmentAtTokens(p: Position, s: Segment, rest: Lexed)
    requires Writable(s)
    ensures SegmentAt(Lexed(SegmentTokens(p, s) + rest.tokens, rest.end)) == Success(Read(Some(ReadSegment(p, s)), rest))
  {
    var r := AdvanceBy(p, s.name);
    var sep := Token(AdvanceBy(r, ElementsToEdifact(s.elements)), SegmentSeparator, ['\'']);
    var tail := Lexed([sep] + rest.tokens, rest.end);
    var body := Lexed(ElementsTokens(r, s.elements) + tail.tokens, rest.end);
    var l := Lexed([Token(p, Text, s.name)] + body.tokens, rest.end);
    assert Lexed(SegmentTokens(p, s) + rest.tokens, rest.end) == l by {
      Assoc([Token(p, Text, s.name)] + ElementsTokens(r, s.elements), [sep], rest.tokens);
      Assoc([Token(p, Text, s.name)], ElementsTokens(r, s.elements), [sep] + rest.tokens);
    }
    TailCons(Token(p, Text, s.name), body.tokens, rest.end);
    TailCons(sep, rest.tokens, rest.end);
    assert SegmentBody(body, Segment(p, s.name, [])) == Success(Read(ReadSegment(p, s), rest)) by {
      SegmentBodyTokens(r, s.elements, tail, Segment(p, s.name, []));
      assert [] + ReadElements(r, s.elements) == ReadElements(r, s.elements);
    }
  }

  /** read_remaining over the tokens of writable segments and eof gives ReadSegments. */
  lemma {:induction false} ReadAllTokens(p: Position, ss: seq<Segment>, eof: Token)
    requires forall k :: 0 <= k < |ss| ==> Writable(ss[k])
    requires eof.kind == Eof
    ensures ReadAll(Lexed(SegmentsTokens(p, ss), Success(eof))) == Success(ReadSegments(p, ss))
    decreases |ss|
  {
    var l := Lexed(SegmentsTokens(p, ss), Success(eof));
    if ss != [] {
      var r := AdvanceBy(p, SegmentToEdifact(ss[0]));
      var rest := Lexed(SegmentsTokens(r, ss[1..]), Success(eof));
      SegmentAtTokens(p, ss[0], rest);
      assert l == Lexed(SegmentTokens(p, ss[0]) + rest.tokens, rest.end);
      ReadAllTokens(r, ss[1..], eof);
      ReadAllStep(l);
    }
  }

  // ---------------------------------------------------------------------------------------
  // Segment#to_edifact read back

  /** The component texts of each element, in order. */
  function ElementTexts(es: seq<Element>): seq<seq<string>>
  {
    seq(|es|, m requires 0 <= m < |es| => Builder.Texts(es[m].components))
  }

  lemma {:induction false} ReadComponentsTexts(p: Position, cs: seq<Component>)
    ensures Builder.Texts(ReadComponents(p, cs)) == Builder.Texts(cs)
    decreases |cs|
  {
    if cs != [] {
      var r := Advance(AdvanceBy(p, Escape(cs[0].text)), ':');
      ReadComponentsTexts(r, cs[1..]);
      assert Builder.Texts(ReadComponents(p, cs))[1..] == Builder.Texts(ReadComponents(r, cs[1..]));
      assert Builder.Texts(cs)[1..] == Builder.Texts(cs[1..]);
    }
  }

  lemma {:induction false} ReadElementsTexts(p: Position, es: seq<Element>)
    ensures ElementTexts(ReadElements(p, es)) == ElementTexts(es)
    decreases |es|
  {
    if es != [] {
      var r := AdvanceBy(p, ElementToEdifact(es[0]));
      ReadElementsTexts(r, es[1..]);
      ReadComponentsTexts(Advance(p, '+'), es[0].components);
      assert ElementTexts(ReadElements(p, es))[1..] == ElementTexts(ReadElements(r, es[1..]));
      assert ElementTexts(es)[1..] == ElementTexts(es[1..]);
    }
  }

  /**
   * The text Segment#to_edifact writes for a segment with a plain name and components in
   * every element, read by read_segment where it lies in the input: the segment comes back
   * with its name, as many elements and the same component texts in each, at the positions
   * the tokenizer reports, and reading goes on right after its terminator.
   */
  lemma SegmentReadsBack(input: string, i: nat, p: Position, s: Segment)
    requires Writable(s)
    requires i + |SegmentToEdifact(s)| <= |input| && input[i..i + |SegmentToEdifact(s)|] == SegmentToEdifact(s)
    ensures var after := Lex(input, DefaultDelimiters, CleanAt(i + |SegmentToEdifact(s)|, AdvanceBy(p, SegmentToEdifact(s))));
      SegmentAt(Lex(input, DefaultDelimiters, CleanAt(i, p))) == Success(Read(Some(ReadSegment(p, s)), after))
    ensures ReadSegment(p, s).pos == p && ReadSegment(p, s).name == s.name
    ensures ElementTexts(ReadSegment(p, s).elements) == ElementTexts(s.elements)
  {
    LexSegment(input, i, p, s, i + |SegmentToEdifact(s)|, AdvanceBy(p, SegmentToEdifact(s)));
    SegmentAtTokens(p, s, Lex(input, DefaultDelimiters, CleanAt(i + |SegmentToEdifact(s)|, AdvanceBy(p, SegmentToEdifact(s)))));
    ReadElementsTexts(AdvanceBy(p, s.name), s.elements);
  }

  // ---------------------------------------------------------------------------------------
  // SegmentBuilder#to_edifact read back

  /** No name and no component text of s holds a line break. */
  predicate OnOneLine(s: Segment)
  {
    '\n' !in s.name &&
    forall m, n :: 0 <= m < |s.elements| && 0 <= n < |s.elements[m].components| ==>
      '\n' !in s.elements[m].components[n].text
  }

  lemma {:induction false} EscapeOnOneLine(t: string)
    requires '\n' !in t
    ensures '\n' !in Escape(t)
  {
    if t != [] {
      assert t == [t[0]] + t[1..];
      EscapeOnOneLine(t[1..]);
    }
  }

  lemma {:induction false} JoinOnOneLine(cs: seq<Component>)
    requires forall n :: 0 <= n < |cs| ==> '\n' !in cs[n].text
    ensures '\n' !in JoinComponents(cs)
    decreases |cs|
  {
    if cs != [] {
      EscapeOnOneLine(cs[0].text);
      if |cs| > 1 {
        JoinOnOneLine(cs[1..]);
      }
    }
  }

  lemma {:induction false} ElementsOnOneLine(es: seq<Element>)
    requires forall m, n :: 0 <= m < |es| && 0 <= n < |es[m].components| ==> '\n' !in es[m].components[n].text
    ensures '\n' !in ElementsToEdifact(es)
    decreases |es|
  {
    if es != [] {
      JoinOnOneLine(es[0].components);
      ElementsOnOneLine(es[1..]);
    }
  }

  lemma {:induction false} TextOnOneLine(ss: seq<Segment>)
    requires forall k :: 0 <= k < |ss| ==> OnOneLine(ss[k])
    ensures '\n' !in Builder.Text(ss)
    decreases |ss|
  {
    if ss == [] {
      assert Builder.Text(ss) == [];
    } else {
      TextCons(ss);
      ElementsOnOneLine(ss[0].elements);
      TextOnOneLine(ss[1..]);
    }
  }

  lemma SameLine(p: Position, s: string)
    requires '\n' !in s
    ensures AdvanceBy(p, s) == Position(p.line, p.column + |s|)
  {
    forall k | 0 <= k < |s|
      ensures s[k] != '\n'
    {
      assert s[k] in s;
    }
    AdvanceBySameLine(p, s);
  }

  /** Components laid out by element(*values) are read back at the columns they were given. */
  lemma {:induction false} ReadLayout(col: int, vs: seq<string>)
    requires forall n :: 0 <= n < |vs| ==> '\n' !in vs[n]
    ensures ReadComponents(Position(1, col + 1), Builder.Layout(col, vs)) == Builder.Layout(col, vs)
    decreases |vs|
  {
    if vs != [] {
      var col' := col + 1 + |Escape(vs[0])|;
      var cs := Builder.Layout(col, vs);
      assert cs[0] == Component(Position(1, col + 1), vs[0]);
      assert cs[1..] == Builder.Layout(col', vs[1..]);
      EscapeOnOneLine(vs[0]);
      SameLine(Position(1, col + 1), Escape(vs[0]));
      ReadLayout(col', vs[1..]);
    }
  }

  /** The k-th element read: the element written at the end of the text of the ones before it. */
  lemma {:induction false} ReadElementsAt(p: Position, es: seq<Element>, m: nat)
    requires m < |es|
    ensures |ReadElements(p, es)| == |es|
    ensures ReadElements(p, es)[m] == ReadElement(AdvanceBy(p, ElementsToEdifact(es[..m])), es[m])
    decreases |es|
  {
    var r := AdvanceBy(p, ElementToEdifact(es[0]));
    if m == 0 {
      assert es[..0] == [];
      ReadElementsLength(r, es[1..]);
    } else {
      ReadElementsAt(r, es[1..], m - 1);
      assert es[..m] == [es[0]] + es[1..][..m - 1];
      assert ElementsToEdifact(es[..m]) == ElementToEdifact(es[0]) + ElementsToEdifact(es[1..][..m - 1]);
      AdvanceByAppend(p, ElementToEdifact(es[0]), ElementsToEdifact(es[1..][..m - 1]));
    }
  }

  lemma {:induction false} ReadElementsLength(p: Position, es: seq<Element>)
    ensures |ReadElements(p, es)| == |es|
    decreases |es|
  {
    if es != [] {
      ReadElementsLength(AdvanceBy(p, ElementToEdifact(es[0])), es[1..]);
    }
  }

  /** The elements of a segment the builder placed are read back as they are. */
  lemma ReadPlacedElements(col: int, es: seq<Element>)
    requires Builder.ElementsPlaced(es, col)
    requires forall m, n :: 0 <= m < |es| && 0 <= n < |es[m].components| ==> '\n' !in es[m].components[n].text
    ensures ReadElements(Position(1, col), es) == es
  {
    ReadElementsLength(Position(1, col), es);
    forall m | 0 <= m < |es|
      ensures ReadElements(Position(1, col), es)[m] == es[m]
    {
      ReadPlacedElement(col, es, m);
    }
  }

  lemma ReadPlacedElement(col: int, es: seq<Element>, m: nat)
    requires Builder.ElementsPlaced(es, col) && m < |es|
    requires forall m, n :: 0 <= m < |es| && 0 <= n < |es[m].components| ==> '\n' !in es[m].components[n].text
    ensures |ReadElements(Position(1, col), es)| == |es|
    ensures ReadElements(Position(1, col), es)[m] == es[m]
  {
    var e := es[m];
    var before := ElementsToEdifact(es[..m]);
    var c := col + |before|;
    var vs := Builder.Texts(e.components);
    ReadElementsAt(Position(1, col), es, m);
    Builder.ElementPlacedAt(es, col, m);
    assert '\n' !in before by {
      ElementsOnOneLine(es[..m]);
    }
    SameLine(Position(1, col), before);
    forall n | 0 <= n < |vs|
      ensures '\n' !in vs[n]
    {
      assert vs[n] == e.components[n].text;
    }
    ReadLayout(c, vs);
  }

  /** The k-th segment read: the segment written at the end of the text of the ones before it. */
  lemma {:induction false} ReadSegmentsAt(p: Position, ss: seq<Segment>, k: nat)
    requires k < |ss|
    ensures |ReadSegments(p, ss)| == |ss|
    ensures ReadSegments(p, ss)[k] == ReadSegment(AdvanceBy(p, Builder.Text(ss[..k])), ss[k])
    decreases |ss|
  {
    var r := AdvanceBy(p, SegmentToEdifact(ss[0]));
    if k == 0 {
      assert ss[..0] == [];
      assert Builder.Text(ss[..0]) == [];
      ReadSegmentsLength(r, ss[1..]);
    } else {
      ReadSegmentsAt(r, ss[1..], k - 1);
      assert ss[..k][1..] == ss[1..][..k - 1];
      TextCons(ss[..k]);
      AdvanceByAppend(p, SegmentToEdifact(ss[0]), Builder.Text(ss[1..][..k - 1]));
    }
  }

  lemma {:induction false} ReadSegmentsLength(p: Position, ss: seq<Segment>)
    ensures |ReadSegments(p, ss)| == |ss|
    decreases |ss|
  {
    if ss != [] {
      ReadSegmentsLength(AdvanceBy(p, SegmentToEdifact(ss[0])), ss[1..]);
    }
  }

  lemma ReadPlacedSegment(ss: seq<Segment>, k: nat)
    requires Builder.SegmentsPlaced(ss) && k < |ss|
    requires forall k :: 0 <= k < |ss| ==> OnOneLine(ss[k])
    ensures |ReadSegments(Position(1, 10), ss)| == |ss|
    ensures ReadSegments(Position(1, 10), ss)[k] == ss[k]
  {
    var s := ss[k];
    var col := |Builder.Header| + |Builder.Text(ss[..k])| + 1;
    ReadSegmentsAt(Position(1, 10), ss, k);
    assert AdvanceBy(Position(1, 10), Builder.Text(ss[..k])) == Position(1, col) by {
      TextOnOneLine(ss[..k]);
      SameLine(Position(1, 10), Builder.Text(ss[..k]));
    }
    assert ReadSegment(Position(1, col), s) == s by {
      Builder.SegmentPlacedAt(ss, k);
      SameLine(Position(1, col), s.name);
      ReadPlacedElements(col + |s.name|, s.elements);
    }
  }

  /** The header the builder writes: the default delimiters, the body from column 10 of line 1. */
  lemma BuilderHeader(body: string)
    ensures ParseHeader(Builder.Header + body) == Success(DefaultDelimiters)
    ensures AfterHeader(Builder.Header + body) == Position(1, 10)
  {
    var text := Builder.Header + body;
    assert text[..9] == Builder.Header;
    assert text[..3] == "UNA" && text[3..9] == ":+.? '";
    assert PairwiseDistinct(text[3..9]);
    FirstBodyPosition(text);
  }

  /** The segments of an aligned builder are writable. */
  lemma PlacedWritable(column: int, ss: seq<Segment>, k: nat)
    requires Builder.AlignedState(column, ss) && k < |ss| && PlainName(ss[k].name)
    ensures Writable(ss[k])
  {
    Builder.SegmentPlacedAt(ss, k);
    var col := |Builder.Header| + |Builder.Text(ss[..k])| + 1 + |ss[k].name|;
    forall m | 0 <= m < |ss[k].elements|
      ensures ss[k].elements[m].components != []
    {
      Builder.ElementPlacedAt(ss[k].elements, col, m);
    }
  }

  lemma AllWritable(column: int, ss: seq<Segment>)
    requires Builder.AlignedState(column, ss)
    requires forall k :: 0 <= k < |ss| ==> PlainName(ss[k].name)
    ensures forall k :: 0 <= k < |ss| ==> Writable(ss[k])
  {
    forall k | 0 <= k < |ss|
      ensures Writable(ss[k])
    {
      PlacedWritable(column, ss, k);
    }
  }

  /** Segments placed by the builder on line 1 are read back as they are. */
  lemma ReadPlacedSegments(ss: seq<Segment>)
    requires Builder.SegmentsPlaced(ss)
    requires forall k :: 0 <= k < |ss| ==> OnOneLine(ss[k])
    ensures ReadSegments(Position(1, 10), ss) == ss
  {
    ReadSegmentsLength(Position(1, 10), ss);
    forall k | 0 <= k < |ss|
      ensures ReadSegments(Position(1, 10), ss)[k] == ss[k]
    {
      ReadPlacedSegment(ss, k);
    }
  }

  /** The body of the builder's text, read by read_remaining from column 10 on. */
  lemma BuilderTokens(ss: seq<Segment>)
    requires forall k :: 0 <= k < |ss| ==> Writable(ss[k])
    ensures ReadAll(Lex(Builder.Header + Builder.Text(ss), DefaultDelimiters, CleanAt(9, Position(1, 10))))
         == Success(ReadSegments(Position(1, 10), ss))
  {
    assert (Builder.Header + Builder.Text(ss))[9..] == Builder.Text(ss);
    LexSegments(Builder.Header + Builder.Text(ss), 9, Position(1, 10), ss);
    ReadAllTokens(Position(1, 10), ss, Token(AdvanceBy(Position(1, 10), Builder.Text(ss)), Eof, []));
  }

  /**
   * What an aligned SegmentBuilder writes, read back by TokenStream and SegmentStream: the
   * header gives the default delimiters and the first token column 10 of line 1, and
   * read_remaining returns exactly the builder's segments, positions included, as long as
   * every name is plain and no name or value holds a line break.
   */
  lemma BuilderReadsBack(column: int, ss: seq<Segment>)
    requires Builder.AlignedState(column, ss)
    requires forall k :: 0 <= k < |ss| ==> PlainName(ss[k].name) && OnOneLine(ss[k])
    ensures ParseHeader(Builder.Header + Builder.Text(ss)) == Success(DefaultDelimiters)
    ensures AfterHeader(Builder.Header + Builder.Text(ss)) == Position(1, 10)
    ensures ReadAll(Lex(Builder.Header + Builder.Text(ss), DefaultDelimiters, CleanAt(9, Position(1, 10)))) == Success(ss)
  {
    AllWritable(column, ss);
    BuilderHeader(Builder.Text(ss));
    BuilderTokens(ss);
    ReadPlacedSegments(ss);
  }
}
