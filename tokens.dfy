/**
 * The tokenizer of lib/edifact/token_stream.rb: the UNA service string header, the
 * character-by-character scan with one character of lookahead, the release character and
 * the line/column bookkeeping.
 *
 * The input is a sequence of characters, each standing for one byte of the stream; the
 * StringIO and its one-byte peek buffer become an index into that sequence.
 */
module Tokens {
  import opened Common

  datatype TokenKind = Text | SegmentSeparator | ElementSeparator | ComponentSeparator | Eof

  /** Token: its position, type and value (the text, or the delimiter; empty for eof). */
  datatype Token = Token(pos: Position, kind: TokenKind, value: string)

  datatype Delimiters = Delimiters(component: char, element: char, release: char, segment: char)

  const Start: Position := Position(1, 1)

  /** The delimiters a TokenStream starts with, before the header replaces them. */
  const DefaultDelimiters: Delimiters := Delimiters(':', '+', '?', '\'')

  predicate PairwiseDistinct(s: string)
  {
    forall i, j :: 0 <= i < j < |s| ==> s[i] != s[j]
  }

  // ---------------------------------------------------------------------------------------
  // Positions

  /** read_byte: a newline moves to column 1 of the next line, any other byte one column right. */
  function Advance(p: Position, c: char): Position
  {
    if c == '\n' then Position(p.line + 1, 1) else Position(p.line, p.column + 1)
  }

  /** The position after consuming every character of s, starting at p. */
  function AdvanceBy(p: Position, s: string): Position
    decreases |s|
  {
    if s == [] then p else AdvanceBy(Advance(p, s[0]), s[1..])
  }

  lemma {:induction false} AdvanceBySnoc(p: Position, s: string, c: char)
    ensures AdvanceBy(p, s + [c]) == Advance(AdvanceBy(p, s), c)
    decreases |s|
  {
    if s == [] {
      assert (s + [c])[1..] == [];
    } else {
      assert (s + [c])[1..] == s[1..] + [c];
      AdvanceBySnoc(Advance(p, s[0]), s[1..], c);
    }
  }

  lemma {:induction false} AdvanceByAppend(p: Position, a: string, b: string)
    ensures AdvanceBy(p, a + b) == AdvanceBy(AdvanceBy(p, a), b)
    decreases |a|
  {
    if a == [] {
      assert a + b == b;
    } else {
      assert (a + b)[1..] == a[1..] + b;
      AdvanceByAppend(Advance(p, a[0]), a[1..], b);
    }
  }

  /** Consuming at least one character moves strictly forward in (line, column) order. */
  lemma {:induction false} AdvanceByMoves(p: Position, s: string)
    requires s != []
    ensures Before(p, AdvanceBy(p, s))
    decreases |s|
  {
    if |s| > 1 {
      AdvanceByMoves(Advance(p, s[0]), s[1..]);
      BeforeTransitive(p, Advance(p, s[0]), AdvanceBy(p, s));
    }
  }

  /** Without newlines only the column moves, by one per character. */
  lemma {:induction false} AdvanceBySameLine(p: Position, s: string)
    requires forall i :: 0 <= i < |s| ==> s[i] != '\n'
    ensures AdvanceBy(p, s) == Position(p.line, p.column + |s|)
    decreases |s|
  {
    if s != [] {
      AdvanceBySameLine(Advance(p, s[0]), s[1..]);
    }
  }

  // ---------------------------------------------------------------------------------------
  // The UNA header

  /** Array#uniq on characters: the first occurrence of each character, in order. */
  function Uniq(s: string): (u: string)
    ensures |u| <= |s|
    ensures forall c :: c in u <==> c in s
  {
    if s == [] then []
    else
      var init := s[..|s| - 1];
      var p := Uniq(init);
      assert forall c :: c in s <==> c in init || c == s[|s| - 1];
      if s[|s| - 1] in init then p else p + [s[|s| - 1]]
  }

  /** `uniq.length` equals the length exactly when no character repeats. */
  lemma {:induction false} UniqLength(s: string)
    ensures |Uniq(s)| == |s| <==> PairwiseDistinct(s)
  {
    if s != [] {
      var init := s[..|s| - 1];
      UniqLength(init);
      if s[|s| - 1] in init {
        var k :| 0 <= k < |init| && init[k] == s[|s| - 1];
        assert s[k] == s[|s| - 1];
      } else {
        if PairwiseDistinct(init) {
          forall i, j | 0 <= i < j < |s| ensures s[i] != s[j] {
            if j == |s| - 1 {
              assert s[i] == init[i];
            } else {
              assert s[i] == init[i] && s[j] == init[j];
            }
          }
        }
        if PairwiseDistinct(s) {
          assert forall i, j :: 0 <= i < j < |init| ==> init[i] == s[i] && init[j] == s[j];
        }
      }
    }
  }

  /** parse_una_header: the nine header characters must start with UNA; characters 3..8 must differ. */
  function ParseHeader(input: string): (r: Result<Delimiters, Error>)
    ensures r.Success? <==> |input| >= 9 && input[..3] == "UNA" && PairwiseDistinct(input[3..9])
    ensures r.Failure? ==> r.error == Error(InvalidUnaHeader, Start)
    ensures r.Success? ==> r.value == Delimiters(input[3], input[4], input[6], input[8])
    ensures r.Success? ==> PairwiseDistinct([r.value.component, r.value.element, r.value.release, r.value.segment])
  {
    var una := if |input| < 9 then input else input[..9];
    if !(|una| == 9 && una[..3] == "UNA") then Failure(Error(InvalidUnaHeader, Start))
    else if |Uniq(una[3..9])| != 6 then
      UniqLength(una[3..9]);
      Failure(Error(InvalidUnaHeader, Start))
    else
      UniqLength(una[3..9]);
      assert input[3..9] == una[3..9];
      var d := Delimiters(una[3], una[4], una[6], una[8]);
      assert [d.component, d.element, d.release, d.segment]
          == [una[3..9][0], una[3..9][1], una[3..9][3], una[3..9][5]];
      Success(d)
  }

  /** Where the first body token starts: after the nine header characters. */
  function AfterHeader(input: string): Position
    requires |input| >= 9
  {
    AdvanceBy(Start, input[..9])
  }

  // ---------------------------------------------------------------------------------------
  // Scanning one token

  /**
   * The tokenizer's state between two bytes: the cursor, the cursor's position, the position
   * of the token being built, and the text buffer.
   */
  datatype ScanState = ScanState(at: nat, next: Position, tok: Position, buf: string)

  datatype Scanned = Scanned(result: Result<Token, Error>, state: ScanState)

  /** Between tokens the buffer is empty and the token starts at the cursor. */
  predicate Clean(s: ScanState)
  {
    s.buf == [] && s.tok == s.next
  }

  predicate IsSeparator(k: TokenKind)
  {
    k == SegmentSeparator || k == ElementSeparator || k == ComponentSeparator
  }

  /** The bytes that end a text: the three separators (the release character does not). */
  predicate Terminates(d: Delimiters, c: char)
  {
    c == d.segment || c == d.element || c == d.component
  }

  /** A measure that every token other than eof decreases. */
  function Measure(input: string, s: ScanState): nat
    requires s.at <= |input|
  {
    2 * (|input| - s.at) + (if s.buf == [] then 0 else 1)
  }

  /** text_token */
  function TextStep(s: ScanState): Scanned
  {
    Scanned(Success(Token(s.tok, Text, s.buf)), ScanState(s.at, s.next, s.next, []))
  }

  /** separator_token: a pending text goes first, and the delimiter stays unread. */
  function SeparatorStep(input: string, s: ScanState, kind: TokenKind): Scanned
    requires s.at < |input|
  {
    if s.buf == [] then
      var n := Advance(s.next, input[s.at]);
      Scanned(Success(Token(s.tok, kind, [input[s.at]])), ScanState(s.at + 1, n, n, []))
    else TextStep(s)
  }

  /** What one pass of next_token's loop does: return a result, or consume bytes and go on. */
  datatype Step = Emit(scanned: Scanned) | Continue(state: ScanState)

  /** The body of next_token's loop. */
  function ScanStep(input: string, d: Delimiters, s: ScanState): (t: Step)
    requires s.at <= |input|
    ensures t.Continue? ==> s.at < t.state.at <= |input| && t.state.buf != []
  {
    if s.at == |input| then
      if s.buf == [] then Emit(Scanned(Success(Token(s.next, Eof, [])), s)) else Emit(TextStep(s))
    else
      var c := input[s.at];
      if c == d.segment then Emit(SeparatorStep(input, s, SegmentSeparator))
      else if c == d.element then Emit(SeparatorStep(input, s, ElementSeparator))
      else if c == d.component then Emit(SeparatorStep(input, s, ComponentSeparator))
      else if c == d.release then
        var n1 := Advance(s.next, c);
        if s.at + 1 == |input| then
          Emit(Scanned(Failure(Error(UnexpectedEndOfInput, n1)), ScanState(s.at + 1, n1, s.tok, s.buf)))
        else
          var e := input[s.at + 1];
          Continue(ScanState(s.at + 2, Advance(n1, e), s.tok, s.buf + [e]))
      else
        Continue(ScanState(s.at + 1, Advance(s.next, c), s.tok, s.buf + [c]))
  }

  /** next_token: one token, or the error of a release character at the end of the input. */
  function Scan(input: string, d: Delimiters, s: ScanState): (r: Scanned)
    requires s.at <= |input|
    decreases |input| - s.at
    ensures s.at <= r.state.at <= |input|
    ensures (r.result.Success? && r.result.value.kind == Eof) <==> (s.at == |input| && s.buf == [])
    ensures r.result.Success? && r.result.value.kind != Eof ==> Measure(input, r.state) < Measure(input, s)
  {
    match ScanStep(input, d, s)
    case Emit(r) => r
    case Continue(s') => Scan(input, d, s')
  }

  /**
   * What one token is: eof only at the end with an empty buffer, and then nothing changes; a
   * text is non-empty, extends the buffer, starts at the token position and stops before a
   * separator or at the end; a separator is produced and consumed only with an empty buffer;
   * the only error is a release character at the very end, reported at the cursor.
   */
  lemma {:induction false} ScanShape(input: string, d: Delimiters, s: ScanState)
    requires s.at <= |input|
    decreases |input| - s.at
    ensures var r := Scan(input, d, s);
      && (r.result.Success? && r.result.value.kind == Eof ==> r.state == s && r.result.value.pos == s.next)
      && (r.result.Success? && r.result.value.kind != Eof ==> Clean(r.state) && r.result.value.pos == s.tok)
      && (r.result.Success? && r.result.value.kind == Text ==>
            r.result.value.value != [] && s.buf <= r.result.value.value &&
            (r.state.at == |input| || Terminates(d, input[r.state.at])))
      && (r.result.Success? && IsSeparator(r.result.value.kind) ==>
            s.buf == [] && r.state.at == s.at + 1 && r.result.value.value == [input[s.at]])
      && (r.result.Failure? ==>
            r.result.error == Error(UnexpectedEndOfInput, r.state.next) && r.state.at == |input|)
  {
    match ScanStep(input, d, s)
    case Emit(_) =>
    case Continue(s') =>
      ScanShape(input, d, s');
      assert s'.tok == s.tok && s.buf <= s'.buf;
  }

  /** Each consumed byte moves the cursor position as read_byte does. */
  lemma {:induction false} ScanAdvance(input: string, d: Delimiters, s: ScanState)
    requires s.at <= |input|
    ensures Scan(input, d, s).state.next == AdvanceBy(s.next, input[s.at..Scan(input, d, s).state.at])
    decreases |input| - s.at
  {
    var r := Scan(input, d, s);
    assert input[s.at..s.at] == [];
    match ScanStep(input, d, s)
    case Emit(_) =>
      if s.at < |input| {
        assert input[s.at..s.at + 1] == [input[s.at]];
      }
    case Continue(s') =>
      ScanAdvance(input, d, s');
      var consumed := input[s.at..s'.at];
      assert input[s.at..r.state.at] == consumed + input[s'.at..r.state.at];
      AdvanceByAppend(s.next, consumed, input[s'.at..r.state.at]);
      if s'.at == s.at + 2 {
        assert consumed[1..] == [input[s.at + 1]] && consumed[1..][1..] == [];
      } else {
        assert consumed[1..] == [];
      }
  }

  // ---------------------------------------------------------------------------------------
  // The token sequence

  /**
   * What a stream yields from some state on: the tokens before the first eof or error, then
   * that eof token or that error.
   */
  datatype Lexed = Lexed(tokens: seq<Token>, end: Result<Token, Error>)

  predicate WfLexed(l: Lexed)
  {
    (forall i :: 0 <= i < |l.tokens| ==> l.tokens[i].kind != Eof) &&
    (l.end.Success? ==> l.end.value.kind == Eof)
  }

  /** The tokens that repeated reads return from state s on. */
  function Lex(input: string, d: Delimiters, s: ScanState): (l: Lexed)
    requires s.at <= |input|
    decreases Measure(input, s)
    ensures WfLexed(l)
  {
    var r := Scan(input, d, s);
    match r.result
    case Failure(e) => Lexed([], Failure(e))
    case Success(t) =>
      if t.kind == Eof then Lexed([], Success(t))
      else
        var rest := Lex(input, d, r.state);
        Lexed([t] + rest.tokens, rest.end)
  }

  /** The tokens and their eof, as read_remaining returns them, or the error it raises. */
  function Remaining(l: Lexed): Result<seq<Token>, Error>
  {
    match l.end
    case Success(eof) => Success(l.tokens + [eof])
    case Failure(e) => Failure(e)
  }

  // ---------------------------------------------------------------------------------------
  // The stream object

  class TokenStream {
    const input: string
    var component: char
    var element: char
    var release: char
    var segment: char
    /** Index of the next unread byte. */
    var at: nat
    var textBuf: string
    var tokenLine: int
    var tokenColumn: int
    var nextLine: int
    var nextColumn: int

    predicate Valid()
      reads this
    {
      at <= |input|
    }

    function Delims(): Delimiters
      reads this
    {
      Delimiters(component, element, release, segment)
    }

    function State(): ScanState
      reads this
      requires Valid()
    {
      ScanState(at, Position(nextLine, nextColumn), Position(tokenLine, tokenColumn), textBuf)
    }

    /** The tokens this stream has still to yield. */
    function Pending(): Lexed
      reads this
      requires Valid()
    {
      Lex(input, Delims(), State())
    }

    /** next_pos */
    function NextPos(): Position
      reads this
    {
      Position(nextLine, nextColumn)
    }

    /** The fields as the constructor sets them before it parses the header. */
    constructor Init(input: string)
      ensures this.input == input && Valid()
      ensures Delims() == DefaultDelimiters
      ensures State() == ScanState(0, Start, Start, [])
    {
      this.input := input;
      at := 0;
      textBuf := [];
      tokenLine, tokenColumn := 1, 1;
      nextLine, nextColumn := 1, 1;
      element, component, release, segment := '+', ':', '?', '\'';
    }

    /** TokenStream.new: the stream over input, or the header error it raises. */
    static method Open(input: string) returns (r: Result<TokenStream, Error>)
      ensures r.Failure? <==> ParseHeader(input).Failure?
      ensures r.Failure? ==> r.error == ParseHeader(input).error
      ensures r.Success? ==>
                fresh(r.value) && r.value.Valid() && r.value.input == input &&
                r.value.Delims() == ParseHeader(input).value &&
                r.value.State() == ScanState(9, AfterHeader(input), AfterHeader(input), [])
    {
      var ts := new TokenStream.Init(input);
      var h := ts.ParseUnaHeader();
      if h.Failure? {
        return Failure(h.error);
      }
      return Success(ts);
    }

    /** peek_byte */
    function PeekByte(): Option<char>
      reads this
      requires Valid()
    {
      if at < |input| then Some(input[at]) else None
    }

    /** read_byte: also at the end of the input, where it yields nothing, the column moves. */
    method ReadByte() returns (c: Option<char>)
      requires Valid()
      modifies this`at, this`nextLine, this`nextColumn
      ensures Valid() && c == old(PeekByte())
      ensures at == if old(at) < |input| then old(at) + 1 else old(at)
      ensures NextPos() == if c.Some? then Advance(old(NextPos()), c.value)
                           else Position(old(nextLine), old(nextColumn) + 1)
    {
      c := PeekByte();
      if c.Some? {
        at := at + 1;
      }
      if c == Some('\n') {
        nextLine := nextLine + 1;
        nextColumn := 1;
      } else {
        nextColumn := nextColumn + 1;
      }
    }

    /** parse_una_header */
    method ParseUnaHeader() returns (r: Result<Delimiters, Error>)
      requires Valid() && State() == ScanState(0, Start, Start, [])
      modifies this
      ensures Valid()
      ensures r == ParseHeader(input)
      ensures r.Success? ==>
                Delims() == r.value && State() == ScanState(9, AfterHeader(input), AfterHeader(input), [])
    {
      var una: string := [];
      var i := 0;
      while i < 9
        invariant 0 <= i <= 9 && Valid()
        invariant at == if i <= |input| then i else |input|
        invariant una == input[..at]
        invariant i <= |input| ==> NextPos() == AdvanceBy(Start, input[..i])
        invariant textBuf == [] && tokenLine == 1 && tokenColumn == 1
      {
        var c := ReadByte();
        if c.Some? {
          assert input[..at] == input[..at - 1] + [c.value];
          AdvanceBySnoc(Start, input[..i], c.value);
          una := una + [c.value];
        }
        i := i + 1;
      }
      if |una| == 9 && una[..3] == "UNA" {
        component := una[3];
        element := una[4];
        release := una[6];
        segment := una[8];
      } else {
        return Failure(Error(InvalidUnaHeader, Position(tokenLine, tokenColumn)));
      }
      if |Uniq(una[3..9])| != 6 {
        return Failure(Error(InvalidUnaHeader, Position(tokenLine, tokenColumn)));
      }
      tokenLine := nextLine;
      tokenColumn := nextColumn;
      return Success(Delims());
    }

    /** TokenStream#read, that is next_token: the scan loop over the bytes of one token. */
    method Read() returns (t: Result<Token, Error>)
      requires Valid()
      modifies this`at, this`textBuf, this`nextLine, this`nextColumn, this`tokenLine, this`tokenColumn
      ensures Valid()
      ensures t == Scan(input, Delims(), old(State())).result
      ensures State() == Scan(input, Delims(), old(State())).state
    {
      ghost var goal := Scan(input, Delims(), State());
      while true
        invariant Valid()
        invariant Scan(input, Delims(), State()) == goal
        decreases |input| - at
      {
        var c := PeekByte();
        if c.None? {
          if textBuf == [] {
            return Success(Token(NextPos(), Eof, []));
          } else {
            t := TextToken();
            return;
          }
        }
        var ch := c.value;
        if ch == segment {
          t := SeparatorToken(SegmentSeparator);
          return;
        } else if ch == element {
          t := SeparatorToken(ElementSeparator);
          return;
        } else if ch == component {
          t := SeparatorToken(ComponentSeparator);
          return;
        } else if ch == release {
          var _ := ReadByte();
          var e := PeekByte();
          if e.None? {
            return Failure(Error(UnexpectedEndOfInput, NextPos()));
          }
          var b := ReadByte();
          textBuf := textBuf + [b.value];
        } else {
          var b := ReadByte();
          textBuf := textBuf + [b.value];
        }
      }
    }

    /** separator_token */
    method SeparatorToken(kind: TokenKind) returns (t: Result<Token, Error>)
      requires Valid() && at < |input|
      modifies this`at, this`textBuf, this`nextLine, this`nextColumn, this`tokenLine, this`tokenColumn
      ensures Valid()
      ensures t == SeparatorStep(input, old(State()), kind).result
      ensures State() == SeparatorStep(input, old(State()), kind).state
    {
      if textBuf == [] {
        var _ := ReadByte();
        var separatorLine, separatorColumn := tokenLine, tokenColumn;
        tokenLine, tokenColumn := nextLine, nextColumn;
        t := Success(Token(Position(separatorLine, separatorColumn), kind, [input[at - 1]]));
      } else {
        t := TextToken();
      }
    }

    /** text_token */
    method TextToken() returns (t: Result<Token, Error>)
      requires Valid()
      modifies this`textBuf, this`tokenLine, this`tokenColumn
      ensures Valid()
      ensures t == TextStep(old(State())).result && State() == TextStep(old(State())).state
    {
      var text := textBuf;
      var textLine, textColumn := tokenLine, tokenColumn;
      textBuf := [];
      tokenLine, tokenColumn := nextLine, nextColumn;
      t := Success(Token(Position(textLine, textColumn), Text, text));
    }

    /** read_remaining: every token up to and including the first eof. */
    method ReadRemaining() returns (r: Result<seq<Token>, Error>)
      requires Valid()
      modifies this`at, this`textBuf, this`nextLine, this`nextColumn, this`tokenLine, this`tokenColumn
      ensures Valid()
      ensures r == Remaining(old(Pending()))
    {
      var tokens: seq<Token> := [];
      ghost var all := Pending();
      while true
        invariant Valid() && Delims() == old(Delims())
        invariant all == Lexed(tokens + Pending().tokens, Pending().end)
        decreases Measure(input, State())
      {
        ghost var before := State();
        ghost var done := tokens;
        var t := Read();
        if t.Failure? {
          return Failure(t.error);
        }
        tokens := tokens + [t.value];
        if t.value.kind == Eof {
          assert Lex(input, Delims(), before) == Lexed([], Success(t.value));
          assert all == Lexed(done, Success(t.value));
          return Success(tokens);
        }
        assert Lex(input, Delims(), before).tokens == [t.value] + Pending().tokens;
      }
    }
  }

  // ---------------------------------------------------------------------------------------
  // Properties of the token sequence

  /** Everything a stream yields: its tokens, then the eof token when it ends without error. */
  function Yielded(l: Lexed): seq<Token>
  {
    l.tokens + (if l.end.Success? then [l.end.value] else [])
  }

  predicate StrictlyIncreasing(ts: seq<Token>)
  {
    forall i :: 0 <= i < |ts| - 1 ==> Before(ts[i].pos, ts[i + 1].pos)
  }

  /**
   * From a state between tokens, token positions strictly increase up to the first eof, and
   * the first token starts at the cursor.
   */
  lemma {:induction false} LexPositions(input: string, d: Delimiters, s: ScanState)
    requires s.at <= |input| && Clean(s)
    ensures StrictlyIncreasing(Yielded(Lex(input, d, s)))
    ensures Yielded(Lex(input, d, s)) != [] ==> Yielded(Lex(input, d, s))[0].pos == s.next
    decreases Measure(input, s)
  {
    var r := Scan(input, d, s);
    ScanShape(input, d, s);
    if r.result.Success? && r.result.value.kind != Eof {
      var rest := Lex(input, d, r.state);
      LexPositions(input, d, r.state);
      ScanAdvance(input, d, s);
      assert s.at < r.state.at;
      AdvanceByMoves(s.next, input[s.at..r.state.at]);
      assert Yielded(Lex(input, d, s)) == [r.result.value] + Yielded(rest);
    }
  }

  /** A text token is always followed by a separator or by the eof token, never by text. */
  predicate TextThenSeparator(l: Lexed)
  {
    forall i :: 0 <= i < |l.tokens| && l.tokens[i].kind == Text ==> FollowedBySeparator(l, i)
  }

  /** The token after position i is a separator, or it is the eof token that ends l. */
  predicate FollowedBySeparator(l: Lexed, i: nat)
  {
    (i + 1 < |l.tokens| && IsSeparator(l.tokens[i + 1].kind)) || (i + 1 == |l.tokens| && l.end.Success?)
  }

  /** Unfolds TextThenSeparator at one index j. */
  lemma TextFollowedAt(l: Lexed, j: int)
    requires TextThenSeparator(l)
    requires 0 <= j < |l.tokens| && l.tokens[j].kind == Text
    ensures (j + 1 < |l.tokens| && IsSeparator(l.tokens[j + 1].kind)) || (j + 1 == |l.tokens| && l.end.Success?)
  {
    assert FollowedBySeparator(l, j);
  }

  lemma {:induction false} LexTextThenSeparator(input: string, d: Delimiters, s: ScanState)
    requires s.at <= |input|
    ensures TextThenSeparator(Lex(input, d, s))
    decreases Measure(input, s)
  {
    var r := Scan(input, d, s);
    ScanShape(input, d, s);
    if r.result.Success? && r.result.value.kind != Eof {
      var rest := Lex(input, d, r.state);
      LexTextThenSeparator(input, d, r.state);
      var l := Lex(input, d, s);
      assert l.tokens == [r.result.value] + rest.tokens;
      if r.result.value.kind == Text {
        var n := Scan(input, d, r.state);
        ScanShape(input, d, r.state);
        assert n.result.Success? && (n.result.value.kind == Eof || IsSeparator(n.result.value.kind));
        if n.result.value.kind == Eof {
          assert rest == Lexed([], n.result);
        } else {
          assert rest.tokens[0] == n.result.value;
        }
      }
      forall i | 0 <= i < |l.tokens| && l.tokens[i].kind == Text
        ensures FollowedBySeparator(l, i)
      {
        if i > 0 {
          assert l.tokens[i] == rest.tokens[i - 1];
        }
      }
    }
  }

  /** Every text token carries some text. */
  lemma {:induction false} LexTextsNonEmpty(input: string, d: Delimiters, s: ScanState)
    requires s.at <= |input|
    ensures forall i :: 0 <= i < |Lex(input, d, s).tokens| && Lex(input, d, s).tokens[i].kind == Text ==>
              Lex(input, d, s).tokens[i].value != []
    decreases Measure(input, s)
  {
    var r := Scan(input, d, s);
    ScanShape(input, d, s);
    if r.result.Success? && r.result.value.kind != Eof {
      LexTextsNonEmpty(input, d, r.state);
      var l := Lex(input, d, s);
      assert forall i :: 0 < i < |l.tokens| ==> l.tokens[i] == Lex(input, d, r.state).tokens[i - 1];
    }
  }

  /**
   * The release rule: the release character is consumed and the character after it goes into
   * the text verbatim, even when it is a delimiter.
   */
  lemma ScanRelease(input: string, d: Delimiters, s: ScanState)
    requires d.release != d.segment && d.release != d.element && d.release != d.component
    requires s.at + 2 <= |input| && input[s.at] == d.release
    ensures Scan(input, d, s)
         == Scan(input, d, ScanState(s.at + 2, AdvanceBy(s.next, input[s.at..s.at + 2]), s.tok, s.buf + [input[s.at + 1]]))
  {
    var two := input[s.at..s.at + 2];
    assert two[1..] == [input[s.at + 1]] && two[1..][1..] == [];
    var n1 := Advance(s.next, d.release);
    assert AdvanceBy(s.next, two) == AdvanceBy(n1, [input[s.at + 1]]);
    assert AdvanceBy(n1, [input[s.at + 1]]) == AdvanceBy(Advance(n1, input[s.at + 1]), []);
  }

  /** A pending text is emitted at a separator or at the end of the input, which stay unread. */
  lemma ScanAtBoundary(input: string, d: Delimiters, s: ScanState)
    requires s.at <= |input| && s.buf != []
    requires s.at == |input| || Terminates(d, input[s.at])
    ensures Scan(input, d, s) == TextStep(s)
  {
  }

  /** Any other character is appended to the text as it is. */
  lemma ScanPlain(input: string, d: Delimiters, s: ScanState)
    requires s.at < |input| && !Terminates(d, input[s.at]) && input[s.at] != d.release
    ensures Scan(input, d, s)
         == Scan(input, d, ScanState(s.at + 1, AdvanceBy(s.next, [input[s.at]]), s.tok, s.buf + [input[s.at]]))
  {
    assert [input[s.at]][1..] == [];
  }

  /** A header without a newline puts the first body token at line 1, column 10. */
  lemma FirstBodyPosition(input: string)
    requires |input| >= 9 && '\n' !in input[..9]
    ensures AfterHeader(input) == Position(1, 10)
  {
    AdvanceBySameLine(Start, input[..9]);
  }

  /** The header vectors: delimiters taken from characters 3, 4, 6 and 8; short or repeating headers refused. */
  lemma HeaderVectors()
    ensures ParseHeader("UNA1234 6") == Success(Delimiters('1', '2', '4', '6'))
    ensures ParseHeader("UNA:+.? '") == Success(DefaultDelimiters)
    ensures ParseHeader("") == Failure(Error(InvalidUnaHeader, Start))
    ensures ParseHeader("UNA:+.?:'") == Failure(Error(InvalidUnaHeader, Start))
  {
    var h := "UNA:+.?:'";
    assert h[3..9][0] == h[3..9][4];
  }

  /** `ABC+?` after the default header: the release character at the end fails at column 15. */
  lemma ReleaseAtEndVector()
    ensures Lex("UNA:+.? 'ABC+?", DefaultDelimiters, ScanState(9, Position(1, 10), Position(1, 10), []))
         == Lexed([Token(Position(1, 10), Text, "ABC"), Token(Position(1, 13), ElementSeparator, "+")],
                  Failure(Error(UnexpectedEndOfInput, Position(1, 15))))
  {
    var input := "UNA:+.? 'ABC+?";
    var d := DefaultDelimiters;
    assert input[9] == 'A' && input[10] == 'B' && input[11] == 'C' && input[12] == '+' && input[13] == '?';
    var s1 := ScanState(12, Position(1, 13), Position(1, 13), []);
    var s2 := ScanState(13, Position(1, 14), Position(1, 14), []);
    var abc := Scanned(Success(Token(Position(1, 10), Text, "ABC")), s1);
    assert Scan(input, d, ScanState(12, Position(1, 13), Position(1, 10), "ABC")) == abc;
    assert "AB" + "C" == "ABC" && "A" + "B" == "AB" && [] + "A" == "A";
    assert Scan(input, d, ScanState(11, Position(1, 12), Position(1, 10), "AB")) == abc;
    assert Scan(input, d, ScanState(10, Position(1, 11), Position(1, 10), "A")) == abc;
    assert Scan(input, d, ScanState(9, Position(1, 10), Position(1, 10), [])) == abc;
    assert Scan(input, d, s1) == Scanned(Success(Token(Position(1, 13), ElementSeparator, "+")), s2);
  }

  /** `ABC+????'`: each release character makes the next one literal, giving the text `??`. */
  lemma DoubleReleaseVector()
    ensures Yielded(Lex("UNA:+.? 'ABC+????'", DefaultDelimiters, ScanState(13, Position(1, 14), Position(1, 14), [])))
         == [Token(Position(1, 14), Text, "??"), Token(Position(1, 18), SegmentSeparator, "'"), Token(Position(1, 19), Eof, [])]
  {
    var input := "UNA:+.? 'ABC+????'";
    var d := DefaultDelimiters;
    assert input[13] == '?' && input[14] == '?' && input[15] == '?' && input[16] == '?' && input[17] == '\'';
    var s1 := ScanState(17, Position(1, 18), Position(1, 18), []);
    var s2 := ScanState(18, Position(1, 19), Position(1, 19), []);
    var text := Scanned(Success(Token(Position(1, 14), Text, "??")), s1);
    assert Scan(input, d, ScanState(17, Position(1, 18), Position(1, 14), "??")) == text;
    assert "?" + "?" == "??" && [] + "?" == "?";
    assert Scan(input, d, ScanState(15, Position(1, 16), Position(1, 14), "?")) == text;
    assert Scan(input, d, ScanState(13, Position(1, 14), Position(1, 14), [])) == text;
    assert Scan(input, d, s1) == Scanned(Success(Token(Position(1, 18), SegmentSeparator, "'")), s2);
    assert Scan(input, d, s2) == Scanned(Success(Token(Position(1, 19), Eof, [])), s2);
  }
}
