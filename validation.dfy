/**
 * The validators of lib/edifact/validation: ComponentSpec with its datatype patterns, and the
 * positional checks of ElementSpec and SegmentSpec. All of them are predicates over component
 * text; a failed check is the ParseError the source raises, carrying the component's position.
 *
 * Regular expressions given in a specification are matched by a regex engine that is not part
 * of this model: it is the parameter rx, which says whether a pattern matches a text.
 */
module Validation {
  import opened Common
  import opened Nodes

  /** A component specification as message specifications write it. */
  datatype SpecValue =
    | HashSpec(value: Option<SpecValue>, optional: bool)   // {value: ..., optional: ...}
    | ArraySpec(alternatives: seq<SpecValue>)              // [spec, spec, ...]
    | StringSpec(s: string)                                // "an..35", "n4", or a literal value
    | RegexSpec(pattern: string)                           // /.../
    | OtherSpec                                            // any other Ruby value

  /** The element specification: one optional component specification per component index. */
  type ElementSpecValue = seq<Option<SpecValue>>

  datatype Validator =
    | HashValidator(optional: bool, inner: Validator)
    | ArrayValidator(alternatives: seq<Validator>)
    | FixedAlphaValidator(length: nat)
    | VariableAlphanumericValidator(length: nat)
    | FixedNumericValidator(length: nat)
    | VariableNumericValidator(length: nat)
    | StringValidator(value: string)
    | RegexValidator(pattern: string)

  /** The number that the digits after prefix spell, when s is prefix followed by one or more digits. */
  function DigitsAfter(prefix: string, s: string): (r: Option<nat>)
    ensures r.Some? ==> |s| > |prefix| && s[..|prefix|] == prefix && AllDigits(s[|prefix|..])
  {
    if |s| > |prefix| && s[..|prefix|] == prefix && AllDigits(s[|prefix|..]) then Some(DigitsValue(s[|prefix|..]))
    else None
  }

  /** build_validator: Hash, then Array, then the four datatype patterns, a literal, a Regexp. */
  function BuildValidator(spec: SpecValue): (r: Result<Validator, Error>)
    ensures r.Failure? ==> r.error == Error(SpecificationError, NoPosition)
    decreases spec, 1
  {
    match spec
    case HashSpec(value, optional) =>
      if value.None? then Failure(Error(SpecificationError, NoPosition))
      else
        (match BuildValidator(value.value)
         case Failure(e) => Failure(e)
         case Success(inner) => Success(HashValidator(optional, inner)))
    case ArraySpec(alternatives) =>
      (match BuildAll(alternatives)
       case Failure(e) => Failure(e)
       case Success(vs) => Success(ArrayValidator(vs)))
    case StringSpec(s) =>
      if DigitsAfter("a", s).Some? then Success(FixedAlphaValidator(DigitsAfter("a", s).value))
      else if DigitsAfter("an..", s).Some? then Success(VariableAlphanumericValidator(DigitsAfter("an..", s).value))
      else if DigitsAfter("n", s).Some? then Success(FixedNumericValidator(DigitsAfter("n", s).value))
      else if DigitsAfter("n..", s).Some? then Success(VariableNumericValidator(DigitsAfter("n..", s).value))
      else Success(StringValidator(s))
    case RegexSpec(pattern) => Success(RegexValidator(pattern))
    case OtherSpec => Failure(Error(SpecificationError, NoPosition))
  }

  /** ArrayValidator's map over its member specifications; the first failure is raised. */
  function BuildAll(specs: seq<SpecValue>): (r: Result<seq<Validator>, Error>)
    ensures r.Failure? ==> r.error == Error(SpecificationError, NoPosition)
    decreases specs, 0
  {
    if specs == [] then Success([])
    else
      match BuildValidator(specs[0])
      case Failure(e) => Failure(e)
      case Success(v) =>
        match BuildAll(specs[1..])
        case Failure(e) => Failure(e)
        case Success(vs) => Success([v] + vs)
  }

  datatype CharClass = Letters | Digits

  /** [A-Za-z] and \d, which match ASCII characters only. */
  predicate InClass(cls: CharClass, x: char)
  {
    match cls
    case Letters => IsLetter(x)
    case Digits => IsDigit(x)
  }

  /** The whole text matched against cls{lo,hi}, one character at a time. */
  predicate MatchRepeat(cls: CharClass, lo: nat, hi: nat, t: string)
  {
    if t == [] then lo == 0
    else hi > 0 && InClass(cls, t[0]) && MatchRepeat(cls, if lo == 0 then 0 else lo - 1, hi - 1, t[1..])
  }

  /** valid? of each validator. */
  predicate Valid(v: Validator, text: string, rx: (string, string) -> bool)
  {
    match v
    case HashValidator(optional, inner) => if optional && text == "" then true else Valid(inner, text, rx)
    case ArrayValidator(alternatives) => exists i :: 0 <= i < |alternatives| && Valid(alternatives[i], text, rx)
    case FixedAlphaValidator(n) => MatchRepeat(Letters, n, n, text)
    case VariableAlphanumericValidator(n) => |text| <= n
    case FixedNumericValidator(n) => MatchRepeat(Digits, n, n, text)
    case VariableNumericValidator(n) => MatchRepeat(Digits, 1, n, text)
    case StringValidator(value) => text == value
    case RegexValidator(pattern) => rx(pattern, text)
  }

  datatype ComponentSpec = ComponentSpec(specification: SpecValue, validator: Validator)

  /** ComponentSpec.new, which raises for a specification it cannot build a validator for. */
  function NewComponentSpec(spec: SpecValue): (r: Result<ComponentSpec, Error>)
    ensures r.Success? <==> BuildValidator(spec).Success?
    ensures r.Success? ==> r.value.specification == spec && r.value.validator == BuildValidator(spec).value
  {
    match BuildValidator(spec)
    case Failure(e) => Failure(e)
    case Success(v) => Success(ComponentSpec(spec, v))
  }

  /** optional?: only a Hash validator answers it. */
  predicate Optional(c: ComponentSpec)
  {
    c.validator.HashValidator? && c.validator.optional
  }

  /** The outcome of a check: nothing, or the error the source raises. */
  datatype Check = Pass | Fail(error: Error)

  /** validate: a ParseError at the component's position exactly when the text is invalid. */
  function ValidateComponent(c: ComponentSpec, component: Component, rx: (string, string) -> bool): (r: Check)
    ensures r == Pass <==> Valid(c.validator, component.text, rx)
    ensures r != Pass ==> r == Fail(Error(InvalidValue, component.pos))
  {
    if Valid(c.validator, component.text, rx) then Pass else Fail(Error(InvalidValue, component.pos))
  }

  /** The first failing check in order, as a sequence of checks that raise stops at it. */
  function FirstFailure(checks: seq<Check>): Check
  {
    if checks == [] then Pass else if checks[0].Fail? then checks[0] else FirstFailure(checks[1..])
  }

  /** One component of ElementSpec#validate: checked only when its index has a specification. */
  function ComponentCheck(specs: ElementSpecValue, component: Component, i: nat, rx: (string, string) -> bool): Check
  {
    if i < |specs| && specs[i].Some? then
      match NewComponentSpec(specs[i].value)
      case Failure(e) => Fail(e)
      case Success(c) => ValidateComponent(c, component, rx)
    else Pass
  }

  function ComponentChecks(specs: ElementSpecValue, components: seq<Component>, rx: (string, string) -> bool)
    : (r: seq<Check>)
    ensures |r| == |components|
  {
    seq(|components|, i requires 0 <= i < |components| => ComponentCheck(specs, components[i], i, rx))
  }

  /**
   * ElementSpec#validate. It passes exactly when every component whose index has a
   * specification builds a validator and is valid under it; otherwise it reports the first
   * failing component: its specification error, or an invalid value at that component's
   * position.
   */
  function ValidateElement(specs: ElementSpecValue, e: Element, rx: (string, string) -> bool): (r: Check)
    ensures r == Pass <==>
      forall i :: 0 <= i < |e.components| && i < |specs| && specs[i].Some? ==>
        BuildValidator(specs[i].value).Success? && Valid(BuildValidator(specs[i].value).value, e.components[i].text, rx)
    ensures r.Fail? ==> exists i :: (0 <= i < |e.components| &&
      ComponentCheck(specs, e.components[i], i, rx) == r &&
      (forall j :: 0 <= j < i ==> ComponentCheck(specs, e.components[j], j, rx) == Pass) &&
      (r.error == Error(InvalidValue, e.components[i].pos) || r.error == Error(SpecificationError, NoPosition)))
  {
    var cs := ComponentChecks(specs, e.components, rx);
    FirstFailurePass(cs);
    FirstFailureFirst(cs);
    assert forall i :: 0 <= i < |e.components| ==>
      (cs[i] == Pass <==>
       (i < |specs| && specs[i].Some? ==>
          BuildValidator(specs[i].value).Success? && Valid(BuildValidator(specs[i].value).value, e.components[i].text, rx)));
    FirstFailure(cs)
  }

  /** One element of SegmentSpec#validate: checked only when its index has a specification. */
  function ElementCheck(specs: seq<Option<ElementSpecValue>>, e: Element, i: nat, rx: (string, string) -> bool): Check
  {
    if i < |specs| && specs[i].Some? then ValidateElement(specs[i].value, e, rx) else Pass
  }

  function ElementChecks(specs: seq<Option<ElementSpecValue>>, elements: seq<Element>, rx: (string, string) -> bool)
    : (r: seq<Check>)
    ensures |r| == |elements|
  {
    seq(|elements|, i requires 0 <= i < |elements| => ElementCheck(specs, elements[i], i, rx))
  }

  /**
   * SegmentSpec#validate, against the element specifications of a specification node. It
   * passes exactly when every element whose index has a specification passes
   * ElementSpec#validate; otherwise it reports the error of the first failing element.
   */
  function ValidateSegment(specs: seq<Option<ElementSpecValue>>, s: Segment, rx: (string, string) -> bool): (r: Check)
    ensures r == Pass <==>
      forall i :: 0 <= i < |s.elements| && i < |specs| && specs[i].Some? ==>
        ValidateElement(specs[i].value, s.elements[i], rx) == Pass
    ensures r.Fail? ==> exists i :: (0 <= i < |s.elements| && i < |specs| && specs[i].Some? &&
      ValidateElement(specs[i].value, s.elements[i], rx) == r &&
      forall j :: 0 <= j < i ==> ElementCheck(specs, s.elements[j], j, rx) == Pass)
  {
    var es := ElementChecks(specs, s.elements, rx);
    assert forall i :: 0 <= i < |s.elements| ==> es[i] == ElementCheck(specs, s.elements[i], i, rx);
    FirstFailurePass(es);
    FirstFailureFirst(es);
    FirstFailure(es)
  }

  // ---------------------------------------------------------------------------------------
  // What the validators accept

  /** cls{lo,hi} anchored at both ends: between lo and hi characters, all of the class. */
  lemma {:induction false} RepeatMeaning(cls: CharClass, lo: nat, hi: nat, t: string)
    ensures MatchRepeat(cls, lo, hi, t) <==> lo <= |t| <= hi && forall i :: 0 <= i < |t| ==> InClass(cls, t[i])
  {
    if t != [] && hi > 0 {
      RepeatMeaning(cls, if lo == 0 then 0 else lo - 1, hi - 1, t[1..]);
      assert forall i :: 1 <= i < |t| ==> t[i] == t[1..][i - 1];
    }
  }

  /** a<n> accepts exactly n ASCII letters. */
  lemma FixedAlphaMeaning(n: nat, t: string, rx: (string, string) -> bool)
    ensures Valid(FixedAlphaValidator(n), t, rx) <==> |t| == n && forall i :: 0 <= i < |t| ==> IsLetter(t[i])
  {
    RepeatMeaning(Letters, n, n, t);
  }

  /** n<n> accepts exactly n digits. */
  lemma FixedNumericMeaning(n: nat, t: string, rx: (string, string) -> bool)
    ensures Valid(FixedNumericValidator(n), t, rx) <==> |t| == n && AllDigits(t)
  {
    RepeatMeaning(Digits, n, n, t);
  }

  /** n..<n> accepts one to n digits, so never the empty text. */
  lemma VariableNumericMeaning(n: nat, t: string, rx: (string, string) -> bool)
    ensures Valid(VariableNumericValidator(n), t, rx) <==> 1 <= |t| <= n && AllDigits(t)
    ensures !Valid(VariableNumericValidator(n), "", rx)
  {
    RepeatMeaning(Digits, 1, n, t);
  }

  /** The four datatype patterns are recognised before a string can be taken as a literal. */
  lemma DatatypePatterns(n: nat)
    ensures BuildValidator(StringSpec("a" + DecimalString(n))) == Success(FixedAlphaValidator(n))
    ensures BuildValidator(StringSpec("an.." + DecimalString(n))) == Success(VariableAlphanumericValidator(n))
    ensures BuildValidator(StringSpec("n" + DecimalString(n))) == Success(FixedNumericValidator(n))
    ensures BuildValidator(StringSpec("n.." + DecimalString(n))) == Success(VariableNumericValidator(n))
  {
    var d := DecimalString(n);
    DecimalStringValue(n);
    var a, an, nn, nd := "a" + d, "an.." + d, "n" + d, "n.." + d;
    assert a[..1] == "a" && a[1..] == d;
    assert an[..1] == "a" && !IsDigit(an[1..][0]) && an[..4] == "an.." && an[4..] == d;
    assert nn[..1] == "n" && nn[..1] != "a" && nn[1..] == d;
    assert nd[..1] == "n" && nd[..1] != "a" && !IsDigit(nd[1..][0]) && nd[..3] == "n.." && nd[3..] == d;
    assert DigitsAfter("a", nn).None? && DigitsAfter("an..", nn).None?;
    assert DigitsAfter("a", nd).None? && DigitsAfter("an..", nd).None? && DigitsAfter("n", nd).None?;
    assert DigitsAfter("a", an).None?;
  }

  /** optional? holds exactly for a Hash specification that sets :optional. */
  lemma OptionalOnlyForHash(spec: SpecValue)
    requires NewComponentSpec(spec).Success?
    ensures Optional(NewComponentSpec(spec).value) <==> spec.HashSpec? && spec.optional
  {
  }

  /** A Hash spec without :value raises; otherwise it accepts "" when optional, else defers. */
  lemma HashMeaning(value: Option<SpecValue>, optional: bool, t: string, rx: (string, string) -> bool)
    ensures value.None? ==> BuildValidator(HashSpec(value, optional)).Failure?
    ensures value.Some? ==>
              (BuildValidator(HashSpec(value, optional)).Success? <==> BuildValidator(value.value).Success?)
    ensures value.Some? && BuildValidator(value.value).Success? ==>
              (Valid(BuildValidator(HashSpec(value, optional)).value, t, rx)
               <==> (optional && t == "") || Valid(BuildValidator(value.value).value, t, rx))
  {
  }

  /** build_validator of an Array builds every member, in order, or raises. */
  lemma {:induction false} BuildAllShape(specs: seq<SpecValue>)
    ensures BuildAll(specs).Success? <==> forall i :: 0 <= i < |specs| ==> BuildValidator(specs[i]).Success?
    ensures BuildAll(specs).Success? ==>
              |BuildAll(specs).value| == |specs| &&
              forall i :: 0 <= i < |specs| ==> BuildAll(specs).value[i] == BuildValidator(specs[i]).value
  {
    if specs != [] {
      BuildAllShape(specs[1..]);
      assert forall i :: 1 <= i < |specs| ==> specs[i] == specs[1..][i - 1];
    }
  }

  /** An Array spec accepts a text exactly when one of its members does. */
  lemma ArrayMeaning(specs: seq<SpecValue>, t: string, rx: (string, string) -> bool)
    requires BuildValidator(ArraySpec(specs)).Success?
    ensures forall i :: 0 <= i < |specs| ==> BuildValidator(specs[i]).Success?
    ensures Valid(BuildValidator(ArraySpec(specs)).value, t, rx)
        <==> exists i :: 0 <= i < |specs| && Valid(BuildValidator(specs[i]).value, t, rx)
  {
    BuildAllShape(specs);
    var vs := BuildAll(specs).value;
    if Valid(BuildValidator(ArraySpec(specs)).value, t, rx) {
      var i :| 0 <= i < |vs| && Valid(vs[i], t, rx);
      assert Valid(BuildValidator(specs[i]).value, t, rx);
    }
    if exists i :: 0 <= i < |specs| && Valid(BuildValidator(specs[i]).value, t, rx) {
      var i :| 0 <= i < |specs| && Valid(BuildValidator(specs[i]).value, t, rx);
      assert Valid(vs[i], t, rx);
    }
  }

  /** "n1" and "a1" name the fixed-length datatypes; a1 takes one letter and nothing else. */
  lemma FixedAlphaVectors(rx: (string, string) -> bool)
    ensures BuildValidator(StringSpec("n1")) == Success(FixedNumericValidator(1))
    ensures BuildValidator(StringSpec("a1")) == Success(FixedAlphaValidator(1))
    ensures Valid(FixedAlphaValidator(1), "a", rx)
    ensures !Valid(FixedAlphaValidator(1), "", rx) && !Valid(FixedAlphaValidator(1), "1", rx)
    ensures !Valid(FixedAlphaValidator(1), "ab", rx)
  {
    DatatypePatterns(1);
    assert DecimalString(1) == "1";
  }

  lemma NumericVectors(rx: (string, string) -> bool)
    ensures Valid(FixedNumericValidator(2), "11", rx) && !Valid(FixedNumericValidator(2), "1", rx)
    ensures Valid(VariableNumericValidator(2), "1", rx) && !Valid(VariableNumericValidator(2), "", rx)
    ensures Valid(VariableAlphanumericValidator(3), "", rx) && !Valid(VariableAlphanumericValidator(3), "abcd", rx)
  {
  }

  lemma ArrayVector(rx: (string, string) -> bool)
    ensures Valid(ArrayValidator([StringValidator("hello"), StringValidator("world")]), "world", rx)
    ensures !Valid(ArrayValidator([StringValidator("hello"), StringValidator("world")]), "x", rx)
  {
    var w := [StringValidator("hello"), StringValidator("world")];
    assert Valid(w[1], "world", rx);
  }

  // ---------------------------------------------------------------------------------------
  // The positional checks

  /** Checking in order passes exactly when every single check passes. */
  lemma {:induction false} FirstFailurePass(checks: seq<Check>)
    ensures FirstFailure(checks) == Pass <==> forall i :: 0 <= i < |checks| ==> checks[i] == Pass
  {
    if checks != [] {
      FirstFailurePass(checks[1..]);
      assert forall i :: 1 <= i < |checks| ==> checks[i] == checks[1..][i - 1];
    }
  }

  /** A failure is the error of the first failing check; all checks before it passed. */
  lemma {:induction false} FirstFailureFirst(checks: seq<Check>)
    ensures FirstFailure(checks).Fail? ==>
              exists i :: 0 <= i < |checks| && checks[i] == FirstFailure(checks) &&
                          forall j :: 0 <= j < i ==> checks[j] == Pass
  {
    if checks != [] && checks[0].Pass? {
      FirstFailureFirst(checks[1..]);
      if FirstFailure(checks).Fail? {
        var i :| 0 <= i < |checks[1..]| && checks[1..][i] == FirstFailure(checks[1..]) &&
                 forall j :: 0 <= j < i ==> checks[1..][j] == Pass;
        assert checks[i + 1] == FirstFailure(checks);
        assert forall j :: 1 <= j < i + 1 ==> checks[j] == checks[1..][j - 1];
      }
    } else if checks != [] {
      assert checks[0] == FirstFailure(checks);
    }
  }

  lemma {:induction false} FirstFailureAppendPasses(a: seq<Check>, b: seq<Check>)
    requires forall i :: 0 <= i < |b| ==> b[i] == Pass
    ensures FirstFailure(a + b) == FirstFailure(a)
  {
    if a == [] {
      FirstFailurePass(b);
      assert a + b == b;
    } else {
      assert (a + b)[1..] == a[1..] + b;
      FirstFailureAppendPasses(a[1..], b);
    }
  }

  /** Components beyond the specification list are never checked. */
  lemma ElementIgnoresExtraComponents(specs: ElementSpecValue, pos: Position, cs: seq<Component>,
                                      more: seq<Component>, rx: (string, string) -> bool)
    requires |cs| >= |specs|
    ensures ValidateElement(specs, Element(pos, cs + more), rx) == ValidateElement(specs, Element(pos, cs), rx)
  {
    var all := ComponentChecks(specs, cs + more, rx);
    var head := ComponentChecks(specs, cs, rx);
    var tail := all[|cs|..];
    assert all == head + tail;
    FirstFailureAppendPasses(head, tail);
  }

  /** Specification entries past the element's component count are never consulted. */
  lemma ElementIgnoresExtraSpecs(specs: ElementSpecValue, extra: ElementSpecValue, e: Element,
                                 rx: (string, string) -> bool)
    requires |specs| >= |e.components|
    ensures ValidateElement(specs + extra, e, rx) == ValidateElement(specs, e, rx)
  {
    assert ComponentChecks(specs + extra, e.components, rx) == ComponentChecks(specs, e.components, rx);
  }

  /** The errors SegmentSpec#validate raises: an invalid value, or an unusable specification. */
  lemma ValidateSegmentErrors(specs: seq<Option<ElementSpecValue>>, s: Segment, rx: (string, string) -> bool)
    requires ValidateSegment(specs, s, rx).Fail?
    ensures ValidateSegment(specs, s, rx).error.kind == InvalidValue ||
            ValidateSegment(specs, s, rx).error == Error(SpecificationError, NoPosition)
  {
    var i :| 0 <= i < |s.elements| && i < |specs| && specs[i].Some? &&
      ValidateElement(specs[i].value, s.elements[i], rx) == ValidateSegment(specs, s, rx);
  }

  /** Elements beyond the specification list are never checked. */
  lemma SegmentIgnoresExtraElements(specs: seq<Option<ElementSpecValue>>, pos: Position, name: string,
                                    es: seq<Element>, more: seq<Element>, rx: (string, string) -> bool)
    requires |es| >= |specs|
    ensures ValidateSegment(specs, Segment(pos, name, es + more), rx) == ValidateSegment(specs, Segment(pos, name, es), rx)
  {
    var all := ElementChecks(specs, es + more, rx);
    var head := ElementChecks(specs, es, rx);
    var tail := all[|es|..];
    assert all == head + tail;
    FirstFailureAppendPasses(head, tail);
  }

  /** ["n1", {value: "n1", optional: true}]: 1: is valid, a lone empty component is not. */
  lemma OptionalComponentVector(rx: (string, string) -> bool)
    ensures var specs := [Some(StringSpec("n1")), Some(HashSpec(Some(StringSpec("n1")), true))];
      ValidateElement(specs, Element(Position(1, 13), [Component(Position(1, 14), "1"), Component(Position(1, 16), "")]), rx) == Pass &&
      ValidateElement(specs, Element(Position(1, 13), [Component(Position(1, 14), "")]), rx)
        == Fail(Error(InvalidValue, Position(1, 14)))
  {
    DatatypePatterns(1);
    assert DecimalString(1) == "1";
    var specs := [Some(StringSpec("n1")), Some(HashSpec(Some(StringSpec("n1")), true))];
    var good := Element(Position(1, 13), [Component(Position(1, 14), "1"), Component(Position(1, 16), "")]);
    var bad := Element(Position(1, 13), [Component(Position(1, 14), "")]);
    FixedNumericMeaning(1, "1", rx);
    FixedNumericMeaning(1, "", rx);
    var cs := ComponentChecks(specs, bad.components, rx);
    assert cs == [Fail(Error(InvalidValue, Position(1, 14)))];
  }
}
