/**
 * The interchange reader (lib/edifact/interchange.rb): the envelope UNB (UNH body UNT)* UNZ read
 * from a segment stream through a one-segment look-ahead buffer, with the UNT segment count,
 * the UNH/UNT message references and the UNB/UNZ control references checked.
 *
 * The reader is specified by pure functions over the segments the stream will still deliver
 * (an `Input`); the class `Interchange` is proved against them, and the functions are proved
 * to accept exactly the well-formed envelopes.
 */
module Interchanges {
  import opened Common
  import opened Nodes
  import opened Segments
  import Tokens
  import Config

  /** Interchange::Message */
  datatype Message = Message(unh: Segment, segments: seq<Segment>, unt: Segment)

  /** The three readers of an Interchange: unb, messages and unz. */
  datatype Envelope = Envelope(unb: Segment, messages: seq<Message>, unz: Segment)

  /**
   * The validation of an envelope segment against UNB_SPEC, UNZ_SPEC, UNH_SPEC or UNT_SPEC,
   * given the segment name: None when it passes, the error it raises otherwise.
   */
  type Checker = (string, Segment) -> Option<Error>

  /** What a segment stream will still deliver: its segments, then the end (None) or an error. */
  datatype Input = Input(segs: seq<Segment>, end: Option<Error>)

  /** A value read from an input, with the input that is left. */
  datatype Got<T> = Got(value: T, rest: Input)

  /** The segments the stream delivers from the pending tokens l. */
  function InputOf(l: Tokens.Lexed): Input
    decreases |l.tokens|
  {
    match SegmentAt(l)
    case Failure(err) => Input([], Some(err))
    case Success(Read(None, _)) => Input([], None)
    case Success(Read(Some(s), rest)) =>
      var tail := InputOf(rest);
      Input([s] + tail.segs, tail.end)
  }

  /** read_remaining of the stream agrees with InputOf: all segments, or the error that ends them. */
  lemma {:induction false} ReadAllIsInput(l: Tokens.Lexed)
    ensures ReadAll(l) == (if InputOf(l).end.None? then Success(InputOf(l).segs)
                           else Failure(InputOf(l).end.value))
    decreases |l.tokens|
  {
    match SegmentAt(l)
    case Failure(_) =>
    case Success(Read(None, _)) =>
    case Success(Read(Some(s), rest)) =>
      ReadAllIsInput(rest);
  }

  /** One read of the segment stream, seen on the input it delivers. */
  lemma Delivery(l: Tokens.Lexed, r: Result<Option<Segment>, Error>, now: Tokens.Lexed)
    requires Delivers(r, SegmentAt(l), now)
    ensures r.Failure? ==> Peek(InputOf(l)) == r
    ensures r.Success? ==> Buffered([r.value], InputOf(now)) == InputOf(l)
    ensures r == Success(None) ==> InputOf(now) == Input([], None)
  {
  }

  // ---------------------------------------------------------------------------------------
  // The reader as functions on the input

  /** peek_segment: the next segment, None at the end, or the stream's error. */
  function Peek(src: Input): Result<Option<Segment>, Error>
  {
    if src.segs != [] then Success(Some(src.segs[0]))
    else if src.end.Some? then Failure(src.end.value)
    else Success(None)
  }

  /** The input after the next segment. */
  function Rest(src: Input): (r: Input)
    requires src.segs != []
    ensures r.segs == src.segs[1..] && r.end == src.end
  {
    Input(src.segs[1..], src.end)
  }

  /**
   * read_segment(name, spec): the next segment, which must exist, carry the expected name
   * and pass the specification check of that name.
   */
  function Take(src: Input, name: Option<string>, ok: Checker): (r: Result<Got<Segment>, Error>)
    ensures r.Success? ==> src.segs != [] && r.value == Got(src.segs[0], Rest(src))
    ensures r.Success? && name.Some? ==> r.value.value.name == name.value && ok(name.value, r.value.value).None?
    ensures src.segs == [] && src.end.None? ==> r == Failure(Error(UnexpectedEndOfInput, NoPosition))
  {
    match Peek(src)
    case Failure(err) => Failure(err)
    case Success(None) => Failure(Error(UnexpectedEndOfInput, NoPosition))
    case Success(Some(s)) =>
      match Accept(s, name, ok)
      case Some(err) => Failure(err)
      case None => Success(Got(s, Rest(src)))
  }

  /** The checks of read_segment on the segment it took: the expected name, then the specification. */
  function Accept(s: Segment, name: Option<string>, ok: Checker): (r: Option<Error>)
    ensures r.None? <==> name.None? || (s.name == name.value && ok(name.value, s).None?)
    ensures name.Some? && s.name != name.value ==> r == Some(Error(EnvelopeMismatch, s.pos))
  {
    if name.Some? && s.name != name.value then Some(Error(EnvelopeMismatch, s.pos))
    else if name.Some? then ok(name.value, s)
    else None
  }

  /** The loop of read_message: the segments up to the next UNT or the end of the input. */
  function Body(src: Input): (r: Result<Got<seq<Segment>>, Error>)
    ensures r.Success? ==> src.segs == r.value.value + r.value.rest.segs && src.end == r.value.rest.end
    ensures r.Success? ==> forall i :: 0 <= i < |r.value.value| ==> r.value.value[i].name != "UNT"
    ensures r.Success? ==> Stops(r.value.rest, "UNT")
    decreases |src.segs|
  {
    match Peek(src)
    case Failure(err) => Failure(err)
    case Success(None) => Success(Got([], src))
    case Success(Some(s)) =>
      if s.name == "UNT" then Success(Got([], src))
      else Prefixed([s], Body(Rest(src)))
  }

  /** Where a reading loop stops: at the end of the input or at a segment with the given name. */
  predicate Stops(src: Input, name: string)
  {
    if src.segs == [] then src.end.None? else src.segs[0].name == name
  }

  function Prefixed<T>(xs: seq<T>, r: Result<Got<seq<T>>, Error>): Result<Got<seq<T>>, Error>
  {
    match r
    case Failure(err) => Failure(err)
    case Success(g) => Success(Got(xs + g.value, g.rest))
  }

  lemma PrefixedPrefixed<T>(xs: seq<T>, x: T, r: Result<Got<seq<T>>, Error>)
    ensures Prefixed(xs, Prefixed([x], r)) == Prefixed(xs + [x], r)
  {
    if r.Success? {
      assert xs + ([x] + r.value.value) == (xs + [x]) + r.value.value;
    }
  }

  /** elements[e].components[c].text of an envelope segment; NoMethodError when absent. */
  function FieldText(s: Segment, e: nat, c: nat): Result<string, Error>
  {
    if e < |s.elements| && c < |s.elements[e].components| then Success(s.elements[e].components[c].text)
    else Failure(Error(MissingField, NoPosition))
  }

  /** UNT's first field exists and its value counts UNH, the body and UNT. */
  predicate Counted(segments: seq<Segment>, unt: Segment)
  {
    0 < |unt.elements| && 0 < |unt.elements[0].components| &&
    ToI(unt.elements[0].components[0].text) == |segments| + 2
  }

  /** validate_message_segment_counts */
  function CheckCount(segments: seq<Segment>, unt: Segment): (r: Option<Error>)
    ensures r.None? <==> Counted(segments, unt)
    ensures r.Some? ==> r.value in {Error(MissingField, NoPosition), Error(EnvelopeMismatch, unt.pos)}
  {
    match FieldText(unt, 0, 0)
    case Failure(err) => Some(err)
    case Success(t) =>
      if ToI(t) != |segments| + 2 then Some(Error(EnvelopeMismatch, unt.pos)) else None
  }

  /** Two segments carry the same text in the given fields. */
  predicate SameField(a: Segment, ea: nat, b: Segment, eb: nat)
  {
    ea < |a.elements| && 0 < |a.elements[ea].components| &&
    eb < |b.elements| && 0 < |b.elements[eb].components| &&
    a.elements[ea].components[0].text == b.elements[eb].components[0].text
  }

  /** validate_message_references and validate_interchange_control_references. */
  function CheckReference(a: Segment, ea: nat, b: Segment, eb: nat): (r: Option<Error>)
    ensures r.None? <==> SameField(a, ea, b, eb)
    ensures r.Some? ==> r.value in {Error(MissingField, NoPosition), Error(EnvelopeMismatch, b.pos)}
  {
    match FieldText(a, ea, 0)
    case Failure(err) => Some(err)
    case Success(x) =>
      match FieldText(b, eb, 0)
      case Failure(err) => Some(err)
      case Success(y) => if x != y then Some(Error(EnvelopeMismatch, b.pos)) else None
  }

  /** A message as the reader accepts it. */
  predicate MessageOk(m: Message, ok: Checker)
  {
    m.unh.name == "UNH" && ok("UNH", m.unh).None? &&
    (forall i :: 0 <= i < |m.segments| ==> m.segments[i].name != "UNT") &&
    m.unt.name == "UNT" && ok("UNT", m.unt).None? &&
    Counted(m.segments, m.unt) &&
    SameField(m.unh, 0, m.unt, 1)
  }

  /** [unh, *segments, unt] */
  function MessageSegments(m: Message): seq<Segment>
  {
    [m.unh] + m.segments + [m.unt]
  }

  function AllSegments(ms: seq<Message>): seq<Segment>
  {
    if ms == [] then [] else MessageSegments(ms[0]) + AllSegments(ms[1..])
  }

  /** The segments of an interchange in the order they are read. */
  function Flatten(env: Envelope): seq<Segment>
  {
    [env.unb] + AllSegments(env.messages) + [env.unz]
  }

  /** read_message */
  function MessageAt(src: Input, ok: Checker): (r: Result<Got<Message>, Error>)
    ensures r.Success? ==> src.segs == MessageSegments(r.value.value) + r.value.rest.segs
    ensures r.Success? ==> src.end == r.value.rest.end && MessageOk(r.value.value, ok)
  {
    match Take(src, Some("UNH"), ok)
    case Failure(err) => Failure(err)
    case Success(Got(unh, afterUnh)) =>
      match Body(afterUnh)
      case Failure(err) => Failure(err)
      case Success(Got(segments, afterBody)) =>
        match Take(afterBody, Some("UNT"), ok)
        case Failure(err) => Failure(err)
        case Success(Got(unt, rest)) =>
          if CheckCount(segments, unt).Some? then Failure(CheckCount(segments, unt).value)
          else if CheckReference(unh, 0, unt, 1).Some? then Failure(CheckReference(unh, 0, unt, 1).value)
          else
            assert src.segs == MessageSegments(Message(unh, segments, unt)) + rest.segs by {
              assert afterBody.segs == [unt] + rest.segs;
              assert afterUnh.segs == segments + afterBody.segs;
            }
            Success(Got(Message(unh, segments, unt), rest))
  }

  /** The loop of read_interchange: messages up to the next UNZ or the end of the input. */
  function MessagesAt(src: Input, ok: Checker): (r: Result<Got<seq<Message>>, Error>)
    ensures r.Success? ==> src.segs == AllSegments(r.value.value) + r.value.rest.segs
    ensures r.Success? ==> src.end == r.value.rest.end && Stops(r.value.rest, "UNZ")
    ensures r.Success? ==> forall i :: 0 <= i < |r.value.value| ==> MessageOk(r.value.value[i], ok)
    decreases |src.segs|
  {
    match Peek(src)
    case Failure(err) => Failure(err)
    case Success(None) => Success(Got([], src))
    case Success(Some(s)) =>
      if s.name == "UNZ" then Success(Got([], src))
      else
        match MessageAt(src, ok)
        case Failure(err) => Failure(err)
        case Success(Got(m, rest)) =>
          match MessagesAt(rest, ok)
          case Failure(err) => Failure(err)
          case Success(Got(ms, last)) =>
            assert AllSegments([m] + ms) == MessageSegments(m) + AllSegments(ms) by {
              assert ([m] + ms)[1..] == ms;
            }
            Success(Got([m] + ms, last))
  }

  /** An envelope as the reader accepts it. */
  predicate EnvelopeOk(env: Envelope, ok: Checker)
  {
    ContentsOk(env, ok) && SameField(env.unb, 4, env.unz, 1)
  }

  /** Everything the reader checks before the control references. */
  predicate ContentsOk(env: Envelope, ok: Checker)
  {
    env.unb.name == "UNB" && ok("UNB", env.unb).None? &&
    (forall i :: 0 <= i < |env.messages| ==> MessageOk(env.messages[i], ok)) &&
    env.unz.name == "UNZ" && ok("UNZ", env.unz).None?
  }

  /** read_interchange, which Interchange.new runs. */
  function InterchangeAt(src: Input, ok: Checker): (r: Result<Envelope, Error>)
    ensures r.Success? ==> src == Input(Flatten(r.value), None) && EnvelopeOk(r.value, ok)
  {
    match Take(src, Some("UNB"), ok)
    case Failure(err) => Failure(err)
    case Success(Got(unb, afterUnb)) =>
      match MessagesAt(afterUnb, ok)
      case Failure(err) => Failure(err)
      case Success(Got(messages, afterMessages)) =>
        var r := Closing(unb, messages, afterMessages, ok);
        if r.Success? then
          assert afterUnb.segs == AllSegments(messages) + [r.value.unz];
          r
        else r
  }

  /** The end of read_interchange: UNZ, then the end of the input, then the control references. */
  function Closing(unb: Segment, messages: seq<Message>, src: Input, ok: Checker): (r: Result<Envelope, Error>)
    ensures r.Success? ==> src == Input([r.value.unz], None) && r.value.unb == unb && r.value.messages == messages
    ensures r.Success? ==> r.value.unz.name == "UNZ" && ok("UNZ", r.value.unz).None? && SameField(unb, 4, r.value.unz, 1)
  {
    match Take(src, Some("UNZ"), ok)
    case Failure(err) => Failure(err)
    case Success(Got(unz, rest)) =>
      match Peek(rest)
      case Failure(err) => Failure(err)
      case Success(Some(s)) => Failure(Error(EnvelopeMismatch, s.pos))
      case Success(None) =>
        if CheckReference(unb, 4, unz, 1).Some? then Failure(CheckReference(unb, 4, unz, 1).value)
        else Success(Envelope(unb, messages, unz))
  }

  /** One round of the loops of read_message and read_interchange. */
  lemma BodyStep(src: Input)
    requires src.segs != [] && src.segs[0].name != "UNT"
    ensures Body(src) == Prefixed([src.segs[0]], Body(Rest(src)))
  {
  }

  lemma MessagesStep(src: Input, ok: Checker)
    requires src.segs != [] && src.segs[0].name != "UNZ" && MessageAt(src, ok).Success?
    ensures MessagesAt(src, ok) == Prefixed([MessageAt(src, ok).value.value], MessagesAt(MessageAt(src, ok).value.rest, ok))
  {
  }

  // ---------------------------------------------------------------------------------------
  // The reader accepts exactly the well-formed envelopes

  lemma {:induction false} BodyReads(segments: seq<Segment>, tail: Input)
    requires forall i :: 0 <= i < |segments| ==> segments[i].name != "UNT"
    requires Stops(tail, "UNT")
    ensures Body(Input(segments + tail.segs, tail.end)) == Success(Got(segments, tail))
    decreases |segments|
  {
    var src := Input(segments + tail.segs, tail.end);
    if segments == [] {
      assert src == tail;
    } else {
      assert Rest(src) == Input(segments[1..] + tail.segs, tail.end);
      BodyReads(segments[1..], tail);
      assert [segments[0]] + segments[1..] == segments;
    }
  }

  lemma MessageReads(m: Message, tail: Input, ok: Checker)
    requires MessageOk(m, ok)
    ensures MessageAt(Input(MessageSegments(m) + tail.segs, tail.end), ok) == Success(Got(m, tail))
  {
    var src := Input(MessageSegments(m) + tail.segs, tail.end);
    var afterUnh := Input(m.segments + ([m.unt] + tail.segs), tail.end);
    assert Rest(src) == afterUnh;
    var afterBody := Input([m.unt] + tail.segs, tail.end);
    BodyReads(m.segments, afterBody);
    assert Rest(afterBody) == tail;
  }

  lemma {:induction false} MessagesRead(ms: seq<Message>, tail: Input, ok: Checker)
    requires forall i :: 0 <= i < |ms| ==> MessageOk(ms[i], ok)
    requires Stops(tail, "UNZ")
    ensures MessagesAt(Input(AllSegments(ms) + tail.segs, tail.end), ok) == Success(Got(ms, tail))
    decreases |ms|
  {
    var src := Input(AllSegments(ms) + tail.segs, tail.end);
    if ms == [] {
      assert src == tail;
    } else {
      var after := Input(AllSegments(ms[1..]) + tail.segs, tail.end);
      assert src == Input(MessageSegments(ms[0]) + after.segs, after.end);
      assert ms[0] in ms;
      MessageReads(ms[0], after, ok);
      MessagesRead(ms[1..], tail, ok);
      assert [ms[0]] + ms[1..] == ms;
    }
  }

  /** Everything up to UNZ that ContentsOk admits is read back, whatever follows UNZ. */
  lemma ContentsRead(env: Envelope, tail: Input, ok: Checker)
    requires ContentsOk(env, ok)
    ensures Take(Input(Flatten(env) + tail.segs, tail.end), Some("UNB"), ok).Success?
    ensures MessagesAt(Input(AllSegments(env.messages) + [env.unz] + tail.segs, tail.end), ok)
         == Success(Got(env.messages, Input([env.unz] + tail.segs, tail.end)))
  {
    MessagesRead(env.messages, Input([env.unz] + tail.segs, tail.end), ok);
    assert AllSegments(env.messages) + [env.unz] + tail.segs == AllSegments(env.messages) + ([env.unz] + tail.segs);
  }

  lemma AfterUnb(env: Envelope, tail: Input, ok: Checker)
    ensures Rest(Input(Flatten(env) + tail.segs, tail.end))
         == Input(AllSegments(env.messages) + [env.unz] + tail.segs, tail.end)
  {
  }

  /** The reader returns env exactly when the stream delivers env's segments and env is well formed. */
  lemma ParsesExactly(src: Input, env: Envelope, ok: Checker)
    ensures InterchangeAt(src, ok) == Success(env) <==> src == Input(Flatten(env), None) && EnvelopeOk(env, ok)
  {
    if src == Input(Flatten(env), None) && EnvelopeOk(env, ok) {
      var tail := Input([], None);
      assert src == Input(Flatten(env) + tail.segs, tail.end);
      ContentsRead(env, tail, ok);
      AfterUnb(env, tail, ok);
    }
  }

  /** A segment after UNZ is rejected at its position, before the control references are compared. */
  lemma SegmentAfterUnz(env: Envelope, s: Segment, more: seq<Segment>, end: Option<Error>, ok: Checker)
    requires ContentsOk(env, ok)
    ensures InterchangeAt(Input(Flatten(env) + [s] + more, end), ok) == Failure(Error(EnvelopeMismatch, s.pos))
  {
    var tail := Input([s] + more, end);
    assert Flatten(env) + [s] + more == Flatten(env) + tail.segs;
    ContentsRead(env, tail, ok);
    AfterUnb(env, tail, ok);
  }

  /** A stream error after UNZ is reported, before the control references are compared. */
  lemma ErrorAfterUnz(env: Envelope, err: Error, ok: Checker)
    requires ContentsOk(env, ok)
    ensures InterchangeAt(Input(Flatten(env), Some(err)), ok) == Failure(err)
  {
    var tail := Input([], Some(err));
    assert Flatten(env) == Flatten(env) + tail.segs;
    ContentsRead(env, tail, ok);
    AfterUnb(env, tail, ok);
  }

  /** UNZ's first element, the message count, is never compared: any value that passes UNZ's check is read. */
  lemma UnzCountIgnored(env: Envelope, count: Element, ok: Checker)
    requires EnvelopeOk(env, ok) && 0 < |env.unz.elements|
    requires ok("UNZ", env.unz.(elements := env.unz.elements[0 := count])).None?
    ensures var other := env.(unz := env.unz.(elements := env.unz.elements[0 := count]));
            InterchangeAt(Input(Flatten(other), None), ok) == Success(other)
  {
    var other := env.(unz := env.unz.(elements := env.unz.elements[0 := count]));
    assert EnvelopeOk(other, ok);
    ParsesExactly(Input(Flatten(other), None), other, ok);
  }

  /** Input that ends after the messages, without UNZ, is an unexpected end of input. */
  lemma MissingUnz(unb: Segment, ms: seq<Message>, ok: Checker)
    requires unb.name == "UNB" && ok("UNB", unb).None?
    requires forall i :: 0 <= i < |ms| ==> MessageOk(ms[i], ok)
    ensures InterchangeAt(Input([unb] + AllSegments(ms), None), ok) == Failure(Error(UnexpectedEndOfInput, NoPosition))
  {
    var src := Input([unb] + AllSegments(ms), None);
    var tail := Input([], None);
    assert Rest(src) == Input(AllSegments(ms) + tail.segs, tail.end);
    assert Take(src, Some("UNB"), ok) == Success(Got(unb, Rest(src)));
    MessagesRead(ms, tail, ok);
    assert Closing(unb, ms, tail, ok) == Failure(Error(UnexpectedEndOfInput, NoPosition));
  }

  // ---------------------------------------------------------------------------------------
  // Message#to_edifact

  function SegmentsToEdifact(ss: seq<Segment>): string
  {
    if ss == [] then "" else SegmentToEdifact(ss[0]) + SegmentsToEdifact(ss[1..])
  }

  lemma {:induction false} SegmentsToEdifactAppend(a: seq<Segment>, b: seq<Segment>)
    ensures SegmentsToEdifact(a + b) == SegmentsToEdifact(a) + SegmentsToEdifact(b)
    decreases |a|
  {
    if a != [] {
      assert (a + b)[1..] == a[1..] + b;
      SegmentsToEdifactAppend(a[1..], b);
    } else {
      assert a + b == b;
    }
  }

  /**
   * Message#to_edifact as written: it passes its config to Segment#to_edifact, which takes no
   * argument, so the first call raises ArgumentError whatever the message and the config.
   */
  function MessageToEdifactAsWritten(m: Message, config: Config.ToEdifactConfig): Result<string, Error>
  {
    Failure(Error(ArgumentError, NoPosition))
  }

  /** The message of test_reads_multiple_messages is not serialised as written. */
  lemma MessageToEdifactAsWrittenRaises(m: Message, config: Config.ToEdifactConfig)
    ensures MessageToEdifactAsWritten(m, config) != Success(MessageToEdifact(m))
  {
  }

  /**
   * Message#to_edifact as intended: the serialisation of UNH, the body and UNT, concatenated,
   * with the fixed delimiters of Segment#to_edifact.
   */
  function MessageToEdifact(m: Message): (r: string)
    ensures r == SegmentToEdifact(m.unh) + SegmentsToEdifact(m.segments) + SegmentToEdifact(m.unt)
  {
    SegmentsToEdifactAppend([m.unh] + m.segments, [m.unt]);
    SegmentsToEdifactAppend([m.unh], m.segments);
    assert SegmentsToEdifact([m.unt]) == SegmentToEdifact(m.unt) + "";
    assert SegmentsToEdifact([m.unh]) == SegmentToEdifact(m.unh) + "";
    SegmentsToEdifact(MessageSegments(m))
  }

  // ---------------------------------------------------------------------------------------
  // The reader as a class over a segment stream

  /** Delivered: the method's result agrees with the function's, and the input left is the same. */
  predicate Delivered<T(==)>(r: Result<T, Error>, spec: Result<Got<T>, Error>, now: Input)
  {
    match spec
    case Failure(err) => r == Failure(err)
    case Success(Got(v, rest)) => r == Success(v) && now == rest
  }

  /** The input still to be read when buf holds what peek_segment took from a stream delivering pending. */
  function Buffered(buf: seq<Option<Segment>>, pending: Input): Input
  {
    if buf == [] then pending
    else if buf[0].None? then Input([], None)
    else Input([buf[0].value] + pending.segs, pending.end)
  }

  lemma PeekBuffered(buf: seq<Option<Segment>>, pending: Input)
    requires |buf| == 1
    ensures Peek(Buffered(buf, pending)) == Success(buf[0])
  {
  }

  lemma TakeBuffered(seg: Option<Segment>, pending: Input)
    ensures seg.None? ==> Buffered([seg], pending) == Input([], None)
    ensures seg.Some? ==> Buffered([seg], pending).segs != [] && Rest(Buffered([seg], pending)) == pending
  {
  }

  class Interchange {
    const stream: SegmentStream
    /** The four SegmentSpec constants, by segment name. */
    const ok: Checker
    /** @peek_buf: at most one segment read from the stream, or nil for its end. */
    var peekBuf: seq<Option<Segment>>
    var unb: Option<Segment>
    var messages: seq<Message>
    var unz: Option<Segment>
    /** The segments still to be read: the buffered one, then the stream's. */
    ghost var rem: Input

    ghost predicate Valid()
      reads this`peekBuf, this`rem, stream, stream.tokens
    {
      stream.Valid() && |peekBuf| <= 1 &&
      (peekBuf == [None] ==> InputOf(stream.Pending()) == Input([], None)) &&
      rem == Buffered(peekBuf, InputOf(stream.Pending()))
    }

    /** The state before read_interchange runs. */
    constructor(s: SegmentStream, ok: Checker)
      requires s.Valid()
      ensures stream == s && this.ok == ok && Valid() && rem == InputOf(s.Pending())
      ensures unb.None? && messages == [] && unz.None?
    {
      stream := s;
      this.ok := ok;
      peekBuf := [];
      unb := None;
      messages := [];
      unz := None;
      rem := InputOf(s.Pending());
    }

    /** peek_segment: never consumes what it returns. */
    method PeekSegment() returns (r: Result<Option<Segment>, Error>)
      requires Valid()
      modifies this`peekBuf, this`rem, stream, stream.tokens
      ensures Valid()
      ensures r == Peek(old(rem))
      ensures r.Success? ==> rem == old(rem) && peekBuf == [r.value]
    {
      if peekBuf == [] {
        ghost var before := stream.Pending();
        var x := stream.ReadSegment();
        Delivery(before, x, stream.Pending());
        if x.Failure? {
          assert old(rem) == InputOf(before);
          rem := InputOf(stream.Pending());
          return Failure(x.error);
        }
        peekBuf := [x.value];
      }
      PeekBuffered(peekBuf, InputOf(stream.Pending()));
      r := Success(peekBuf[0]);
    }

    /** read_segment(name, spec) */
    method ReadSegment(name: Option<string>) returns (r: Result<Segment, Error>)
      requires Valid()
      modifies this`peekBuf, this`rem, stream, stream.tokens
      ensures Valid()
      ensures Delivered(r, Take(old(rem), name, ok), rem)
    {
      var segment := Shift();
      if segment.Failure? {
        return Failure(segment.error);
      }
      if segment.value.None? {
        return Failure(Error(UnexpectedEndOfInput, NoPosition));
      }
      var e := Accept(segment.value.value, name, ok);
      r := if e.Some? then Failure(e.value) else Success(segment.value.value);
    }

    /** The first lines of read_segment: fill the buffer when it is empty, then shift it. */
    method Shift() returns (r: Result<Option<Segment>, Error>)
      requires Valid()
      modifies this`peekBuf, this`rem, stream, stream.tokens
      ensures Valid()
      ensures r == Peek(old(rem))
      ensures r.Success? && r.value.Some? ==> rem == Rest(old(rem))
    {
      if peekBuf == [] {
        r := PeekSegment();
        if r.Failure? {
          return;
        }
      }
      var segment := peekBuf[0];
      TakeBuffered(segment, InputOf(stream.Pending()));
      PeekBuffered(peekBuf, InputOf(stream.Pending()));
      if segment.None? {
        peekBuf := [];
      } else {
        peekBuf, rem := [], Rest(rem);
      }
      r := Success(segment);
    }

    /** The loop of read_message. */
    method ReadBody() returns (r: Result<seq<Segment>, Error>)
      requires Valid()
      modifies this`peekBuf, this`rem, stream, stream.tokens
      ensures Valid()
      ensures Delivered(r, Body(old(rem)), rem)
    {
      ghost var goal := Body(rem);
      var segments: seq<Segment> := [];
      assert Prefixed(segments, goal) == goal by {
        if goal.Success? {
          assert segments + goal.value.value == goal.value.value;
        }
      }
      while true
        invariant Valid()
        invariant Prefixed(segments, Body(rem)) == goal
        decreases |rem.segs|
      {
        var p := PeekSegment();
        if p.Failure? {
          return Failure(p.error);
        }
        if p.value.None? || p.value.value.name == "UNT" {
          assert segments + [] == segments;
          return Success(segments);
        }
        BodyStep(rem);
        var s := ReadSegment(None);
        PrefixedPrefixed(segments, s.value, Body(rem));
        segments := segments + [s.value];
      }
    }

    /** read_message */
    method ReadMessage() returns (r: Result<Message, Error>)
      requires Valid()
      modifies this`peekBuf, this`rem, stream, stream.tokens
      ensures Valid()
      ensures Delivered(r, MessageAt(old(rem), ok), rem)
    {
      var unh := ReadSegment(Some("UNH"));
      if unh.Failure? {
        return Failure(unh.error);
      }
      var segments := ReadBody();
      if segments.Failure? {
        return Failure(segments.error);
      }
      var unt := ReadSegment(Some("UNT"));
      if unt.Failure? {
        return Failure(unt.error);
      }
      var e := CheckCount(segments.value, unt.value);
      if e.Some? {
        return Failure(e.value);
      }
      e := CheckReference(unh.value, 0, unt.value, 1);
      if e.Some? {
        return Failure(e.value);
      }
      return Success(Message(unh.value, segments.value, unt.value));
    }

    /** The loop of read_interchange. */
    method ReadMessages() returns (r: Result<seq<Message>, Error>)
      requires Valid()
      modifies this`peekBuf, this`rem, stream, stream.tokens
      ensures Valid()
      ensures Delivered(r, MessagesAt(old(rem), ok), rem)
    {
      ghost var goal := MessagesAt(rem, ok);
      var ms: seq<Message> := [];
      assert Prefixed(ms, goal) == goal by {
        if goal.Success? {
          assert ms + goal.value.value == goal.value.value;
        }
      }
      while true
        invariant Valid()
        invariant Prefixed(ms, MessagesAt(rem, ok)) == goal
        decreases |rem.segs|
      {
        var p := PeekSegment();
        if p.Failure? {
          return Failure(p.error);
        }
        if p.value.None? || p.value.value.name == "UNZ" {
          assert ms + [] == ms;
          return Success(ms);
        }
        ghost var before := rem;
        var m := ReadMessage();
        if m.Failure? {
          return Failure(m.error);
        }
        MessagesStep(before, ok);
        PrefixedPrefixed(ms, m.value, MessagesAt(rem, ok));
        ms := ms + [m.value];
      }
    }

    /**
     * read_interchange: the envelope read, or the error it raises. The source stores @unb,
     * @messages and @unz as it reads them; here NewInterchange stores them once reading has
     * succeeded, which differs only in an interchange that is never returned.
     */
    method ReadInterchange() returns (r: Result<Envelope, Error>)
      requires Valid()
      modifies this`peekBuf, this`rem, stream, stream.tokens
      ensures r == InterchangeAt(old(rem), ok)
    {
      var first := ReadSegment(Some("UNB"));
      if first.Failure? {
        return Failure(first.error);
      }
      var ms := ReadMessages();
      if ms.Failure? {
        return Failure(ms.error);
      }
      assert InterchangeAt(old(rem), ok) == Closing(first.value, ms.value, rem, ok);
      var last := ReadClosing(first.value, ms.value);
      if last.Failure? {
        return Failure(last.error);
      }
      r := Success(Envelope(first.value, ms.value, last.value));
    }

    /** The end of read_interchange: UNZ, the end of the input, the control references. */
    method ReadClosing(first: Segment, ms: seq<Message>) returns (r: Result<Segment, Error>)
      requires Valid()
      modifies this`peekBuf, this`rem, stream, stream.tokens
      ensures Valid()
      ensures match Closing(first, ms, old(rem), ok)
              case Failure(err) => r == Failure(err)
              case Success(env) => r == Success(env.unz)
    {
      var last := ReadSegment(Some("UNZ"));
      if last.Failure? {
        return last;
      }
      var p := PeekSegment();
      if p.Failure? {
        return Failure(p.error);
      }
      if p.value.Some? {
        return Failure(Error(EnvelopeMismatch, p.value.value.pos));
      }
      var e := CheckReference(first, 4, last.value, 1);
      if e.Some? {
        return Failure(e.value);
      }
      return last;
    }
  }

  /** Interchange.new(segment_stream): the interchange read, or the error raised while reading it. */
  method NewInterchange(s: SegmentStream, ok: Checker) returns (r: Result<Interchange, Error>)
    requires s.Valid()
    modifies s, s.tokens
    ensures match InterchangeAt(old(InputOf(s.Pending())), ok)
            case Failure(err) => r == Failure(err)
            case Success(env) => r.Success? && r.value.unb == Some(env.unb)
                                 && r.value.messages == env.messages && r.value.unz == Some(env.unz)
  {
    ghost var src := InputOf(s.Pending());
    var i := new Interchange(s, ok);
    assert i.rem == src;
    var e := i.ReadInterchange();
    if e.Failure? {
      return Failure(e.error);
    }
    i.unb, i.messages, i.unz := Some(e.value.unb), e.value.messages, Some(e.value.unz);
    return Success(i);
  }
}
