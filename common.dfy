/** Types shared by the whole pipeline: results, positions and the error taxonomy. */
module Common {

  datatype Option<+T> = None | Some(value: T)

  datatype Result<+T, +E> = Success(value: T) | Failure(error: E) {
    predicate IsFailure() { Failure? }

    function PropagateFailure<U>(): Result<U, E>
      requires Failure?
    {
      Failure(error)
    }

    function Extract(): T
      requires Success?
    {
      value
    }
  }

  /** A 1-based source position, advanced character by character by the tokenizer. */
  datatype Position = Position(line: int, column: int)

  /** The sentinel used where the source reports no real position (Position::EOF and -1). */
  const NoPosition: Position := Position(-1, -1)

  /** Strict (line, column) order. */
  predicate Before(p: Position, q: Position)
  {
    p.line < q.line || (p.line == q.line && p.column < q.column)
  }

  lemma BeforeTransitive(p: Position, q: Position, r: Position)
    requires Before(p, q) && Before(q, r)
    ensures Before(p, r)
  {
  }

  /** The error classes of the library, each carrying the position it reports. */
  datatype ErrorKind =
    | InvalidUnaHeader        // InvalidUnaHeaderError
    | UnexpectedEndOfInput    // UnexpectedEndOfInputError
    | UnexpectedToken         // UnexpectedTokenError
    | InvalidValue            // ParseError raised by ComponentSpec#validate
    | InvalidSegment          // ParseError: segment name not reachable
    | PrematureEnd            // ParseError: end of input with unsatisfied minimum
    | NoOpenGroup             // NoMethodError: segment appended with no open group
    | Hangs                   // a loop of the source that never ends
    | SpecificationError      // RuntimeError raised for an invalid specification
    | ArgumentError           // ArgumentError of ToEdifactConfig
    | NoSegmentDefined        // RuntimeError of SegmentBuilder#element
    | EnvelopeMismatch        // ParseError raised by Interchange name, count and reference checks
    | MissingField            // NoMethodError: element or component absent in an envelope segment

  datatype Error = Error(kind: ErrorKind, pos: Position)


  predicate IsDigit(c: char) { '0' <= c <= '9' }

  predicate IsLetter(c: char) { ('A' <= c <= 'Z') || ('a' <= c <= 'z') }

  predicate AllDigits(s: string) { forall i :: 0 <= i < |s| ==> IsDigit(s[i]) }

  /** The decimal value of a string of digits. */
  function DigitsValue(s: string): (n: nat)
    requires AllDigits(s)
  {
    if s == [] then 0 else DigitsValue(s[..|s| - 1]) * 10 + (s[|s| - 1] as int - '0' as int)
  }

  /** The shortest decimal spelling of n. */
  function DecimalString(n: nat): (s: string)
    ensures |s| > 0 && AllDigits(s)
  {
    if n < 10 then [('0' as int + n) as char]
    else DecimalString(n / 10) + [('0' as int + n % 10) as char]
  }

  lemma {:induction false} DecimalStringValue(n: nat)
    ensures DigitsValue(DecimalString(n)) == n
  {
    var s := DecimalString(n);
    if n >= 10 {
      DecimalStringValue(n / 10);
      assert s[..|s| - 1] == DecimalString(n / 10);
    }
  }

  /** The length of the longest prefix of s made of digits. */
  function DigitPrefixLength(s: string): (k: nat)
    ensures k <= |s| && AllDigits(s[..k])
    ensures k < |s| ==> !IsDigit(s[k])
  {
    if s == [] || !IsDigit(s[0]) then 0
    else
      var k := 1 + DigitPrefixLength(s[1..]);
      assert s[..k] == [s[0]] + s[1..][..k - 1];
      k
  }

  /** Ruby's String#to_i on the strings this library feeds it: the value of the leading digits. */
  function ToI(s: string): (n: nat)
  {
    var k := DigitPrefixLength(s);
    DigitsValue(s[..k])
  }

  lemma ToIOfDigits(s: string)
    requires AllDigits(s)
    ensures ToI(s) == DigitsValue(s)
  {
    var k := DigitPrefixLength(s);
    if k < |s| {
      assert false;
    }
    assert s[..k] == s;
  }

  lemma ToIOfDecimal(n: nat)
    ensures ToI(DecimalString(n)) == n
  {
    ToIOfDigits(DecimalString(n));
    DecimalStringValue(n);
  }

  /** The number of occurrences of characters of the set cs in s. */
  function CountIn(s: string, cs: set<char>): (n: nat)
    ensures n <= |s|
  {
    if s == [] then 0 else (if s[0] in cs then 1 else 0) + CountIn(s[1..], cs)
  }

  lemma {:induction false} CountInAppend(a: string, b: string, cs: set<char>)
    ensures CountIn(a + b, cs) == CountIn(a, cs) + CountIn(b, cs)
  {
    if a != [] {
      assert (a + b)[1..] == a[1..] + b;
      CountInAppend(a[1..], b, cs);
    } else {
      assert a + b == b;
    }
  }
}
