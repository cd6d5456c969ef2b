/**
 * ToEdifactConfig of lib/edifact/nodes/to_edifact_config.rb: the delimiters a serialiser
 * writes with, the UNA header it announces them in, and the escaping of text.
 * Each delimiter is modelled as one character; the source accepts strings of any length.
 */
module Config {
  import opened Common
  import opened Tokens
  import Nodes

  datatype ToEdifactConfig = ToEdifactConfig(
    segment: char, element: char, component: char, decimalPoint: char, release: char)

  /** ToEdifactConfig.new: a newline may only be the segment separator. */
  function NewConfig(segment: char, element: char, component: char, release: char)
    : (r: Result<ToEdifactConfig, Error>)
    ensures r.Success? <==> element != '\n' && component != '\n' && release != '\n'
    ensures r.Failure? ==> r.error.kind == ArgumentError
    ensures r.Success? ==>
              r.value.decimalPoint == '.' && r.value.segment == segment && r.value.element == element &&
              r.value.component == component && r.value.release == release
  {
    if element == '\n' then Failure(Error(ArgumentError, NoPosition))
    else if component == '\n' then Failure(Error(ArgumentError, NoPosition))
    else if release == '\n' then Failure(Error(ArgumentError, NoPosition))
    else Success(ToEdifactConfig(segment, element, component, '.', release))
  }

  /** ToEdifactConfig::DEFAULT */
  const Default: ToEdifactConfig := ToEdifactConfig('\'', '+', ':', '.', '?')

  /** The keyword defaults give DEFAULT, and a newline segment separator is accepted. */
  lemma DefaultConfig()
    ensures NewConfig('\'', '+', ':', '?') == Success(Default)
    ensures NewConfig('\n', '+', ':', '?').Success?
    ensures NewConfig('\'', '\n', ':', '?').Failure?
  {
  }

  /** The delimiters a TokenStream reads out of this configuration's header. */
  function Delims(c: ToEdifactConfig): Delimiters
  {
    Delimiters(c.component, c.element, c.release, c.segment)
  }

  /** una_header */
  function UnaHeader(c: ToEdifactConfig): string
  {
    "UNA" + [c.component, c.element, c.decimalPoint, c.release, ' ', c.segment]
  }

  /** The six header characters after UNA, which the tokenizer requires to be distinct. */
  function ServiceCharacters(c: ToEdifactConfig): string
  {
    [c.component, c.element, c.decimalPoint, c.release, ' ', c.segment]
  }

  /**
   * The header, followed by anything, parses back to the configuration's four delimiters
   * exactly when the six service characters are distinct; otherwise it is refused.
   */
  lemma UnaHeaderParsesBack(c: ToEdifactConfig, body: string)
    ensures |UnaHeader(c)| == 9
    ensures ParseHeader(UnaHeader(c) + body).Success? <==> PairwiseDistinct(ServiceCharacters(c))
    ensures PairwiseDistinct(ServiceCharacters(c)) ==>
              ParseHeader(UnaHeader(c) + body) == Success(Delims(c))
  {
    var input := UnaHeader(c) + body;
    assert input[..3] == "UNA";
    assert input[3..9] == ServiceCharacters(c);
  }

  predicate Special(c: ToEdifactConfig, x: char)
  {
    x == c.segment || x == c.element || x == c.component || x == c.release
  }

  /** What escape makes of one character. */
  function EscapeChar(c: ToEdifactConfig, x: char): string
  {
    if Special(c, x) then [c.release, x] else [x]
  }

  /** escape: each delimiter or release character gets the release character in front. */
  function Escape(c: ToEdifactConfig, text: string): string
  {
    if text == [] then [] else EscapeChar(c, text[0]) + Escape(c, text[1..])
  }

  /** Escaping changes nothing but the special characters, and adds one character for each. */
  lemma {:induction false} EscapeLength(c: ToEdifactConfig, text: string)
    ensures |Escape(c, text)| == |text| + CountIn(text, {c.segment, c.element, c.component, c.release})
  {
    if text != [] {
      EscapeLength(c, text[1..]);
    }
  }

  lemma {:induction false} EscapeWithoutSpecials(c: ToEdifactConfig, text: string)
    requires forall i :: 0 <= i < |text| ==> !Special(c, text[i])
    ensures Escape(c, text) == text
  {
    if text != [] {
      EscapeWithoutSpecials(c, text[1..]);
    }
  }

  /** Component#to_edifact is the escaping of DEFAULT. */
  lemma {:induction false} DefaultEscape(text: string)
    ensures Nodes.Escape(text) == Escape(Default, text)
  {
    if text != [] {
      DefaultEscape(text[1..]);
    }
  }

  predicate DistinctDelimiters(d: Delimiters)
  {
    d.component != d.element && d.component != d.release && d.component != d.segment &&
    d.element != d.release && d.element != d.segment && d.release != d.segment
  }

  lemma BufferGrows(buf: string, text: string)
    requires text != []
    ensures buf + [text[0]] + text[1..] == buf + text
  {
    assert [text[0]] + text[1..] == text;
  }

  lemma SliceSplit(input: string, i: nat, a: string, b: string)
    requires i + |a + b| <= |input| && input[i..i + |a + b|] == a + b
    ensures input[i..i + |a|] == a && input[i + |a|..i + |a| + |b|] == b
  {
    assert input[i..i + |a|] == input[i..i + |a + b|][..|a|];
    assert input[i + |a|..i + |a| + |b|] == input[i..i + |a + b|][|a|..];
  }

  /** One escaped character: the scan consumes it and appends the original character. */
  lemma ScanEscapedChar(c: ToEdifactConfig, input: string, s: ScanState, x: char)
    requires DistinctDelimiters(Delims(c))
    requires s.at + |EscapeChar(c, x)| <= |input| && input[s.at..s.at + |EscapeChar(c, x)|] == EscapeChar(c, x)
    ensures Scan(input, Delims(c), s)
         == Scan(input, Delims(c),
                 ScanState(s.at + |EscapeChar(c, x)|, AdvanceBy(s.next, EscapeChar(c, x)), s.tok, s.buf + [x]))
  {
    var d := Delims(c);
    if Special(c, x) {
      assert input[s.at] == c.release && input[s.at + 1] == x;
      ScanRelease(input, d, s);
    } else {
      assert input[s.at] == x;
      ScanPlain(input, d, s);
    }
  }

  /**
   * Scanning over an escaped text appends exactly that text to the buffer: the release rule
   * undoes the escaping.
   */
  lemma {:induction false} ScanEscaped(c: ToEdifactConfig, input: string, s: ScanState, text: string)
    requires DistinctDelimiters(Delims(c))
    requires s.at + |Escape(c, text)| <= |input|
    requires input[s.at..s.at + |Escape(c, text)|] == Escape(c, text)
    ensures Scan(input, Delims(c), s)
         == Scan(input, Delims(c),
                 ScanState(s.at + |Escape(c, text)|, AdvanceBy(s.next, Escape(c, text)), s.tok, s.buf + text))
    decreases |text|
  {
    if text == [] {
      assert Escape(c, text) == [];
      assert s.buf + text == s.buf;
      assert ScanState(s.at + |Escape(c, text)|, AdvanceBy(s.next, Escape(c, text)), s.tok, s.buf + text) == s;
    } else {
      var x := text[0];
      var head := EscapeChar(c, x);
      var tail := Escape(c, text[1..]);
      SliceSplit(input, s.at, head, tail);
      ScanEscapedChar(c, input, s, x);
      var s' := ScanState(s.at + |head|, AdvanceBy(s.next, head), s.tok, s.buf + [x]);
      ScanEscaped(c, input, s', text[1..]);
      EscapedState(c, s, text);
    }
  }

  /** The state after the first escaped character and then the rest is the state after the whole text. */
  lemma EscapedState(c: ToEdifactConfig, s: ScanState, text: string)
    requires text != []
    ensures var head := EscapeChar(c, text[0]);
            var tail := Escape(c, text[1..]);
            var s' := ScanState(s.at + |head|, AdvanceBy(s.next, head), s.tok, s.buf + [text[0]]);
      ScanState(s'.at + |tail|, AdvanceBy(s'.next, tail), s'.tok, s'.buf + text[1..])
      == ScanState(s.at + |Escape(c, text)|, AdvanceBy(s.next, Escape(c, text)), s.tok, s.buf + text)
  {
    var head := EscapeChar(c, text[0]);
    var tail := Escape(c, text[1..]);
    assert Escape(c, text) == head + tail;
    AdvanceByAppend(s.next, head, tail);
    BufferGrows(s.buf, text);
  }

  /** A scan that reaches, with a non-empty buffer, a delimiter or the end yields the buffer. */
  lemma ReadBackAt(input: string, d: Delimiters, s: ScanState, e: string, text: string)
    requires Clean(s) && text != [] && s.at + |e| <= |input|
    requires s.at + |e| == |input| || Terminates(d, input[s.at + |e|])
    requires Scan(input, d, s) == Scan(input, d, ScanState(s.at + |e|, AdvanceBy(s.next, e), s.tok, text))
    ensures Scan(input, d, s).result == Success(Token(s.next, Text, text))
    ensures Scan(input, d, s).state.at == s.at + |e|
  {
    ScanAtBoundary(input, d, ScanState(s.at + |e|, AdvanceBy(s.next, e), s.tok, text));
  }

  /**
   * Under the same delimiters, an escaped non-empty text followed by a separator or by the end
   * of the input is read back as one text token holding exactly that text.
   */
  lemma EscapeReadsBack(c: ToEdifactConfig, input: string, s: ScanState, text: string)
    requires DistinctDelimiters(Delims(c)) && Clean(s) && text != []
    requires s.at + |Escape(c, text)| <= |input|
    requires input[s.at..s.at + |Escape(c, text)|] == Escape(c, text)
    requires s.at + |Escape(c, text)| == |input| || Terminates(Delims(c), input[s.at + |Escape(c, text)|])
    ensures Scan(input, Delims(c), s).result == Success(Token(s.next, Text, text))
    ensures Scan(input, Delims(c), s).state.at == s.at + |Escape(c, text)|
  {
    ScanEscaped(c, input, s, text);
    assert s.buf + text == text;
    ReadBackAt(input, Delims(c), s, Escape(c, text), text);
  }
}
