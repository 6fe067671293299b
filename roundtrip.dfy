/**
 * The serializer and the grammar read together: the text `Serialize` writes for null, a
 * boolean or an integer is parsed back by `Deserialize` to the same value, and whatever
 * follows that text is never looked at.
 */
module RoundTrip {
  import opened Wrappers
  import opened FuncParser
  import opened GenJson
  import opened Cursor
  import opened Grammar
  import opened GrammarFacts
  import opened NumberFacts
  import opened Serialize

  /** The bytes of t sit at the cursor. */
  predicate TextAt(d: Deserializer, t: seq<byte>)
  {
    d.idx + |t| <= |d.b| && forall i :: 0 <= i < |t| ==> d.b[d.idx + i] == t[i]
  }

  /** One byte parser per byte of t, in order. */
  function ByteSeq(t: seq<byte>): (ps: seq<Parser<Deserializer, byte, BoolResult>>)
    ensures |ps| == |t|
  {
    if t == [] then [] else [ByteParser(t[0])] + ByteSeq(t[1..])
  }

  lemma {:induction false} ByteSeqAt(t: seq<byte>)
    ensures forall i :: 0 <= i < |t| ==> ByteSeq(t)[i] == ByteParser(t[i])
    decreases |t|
  {
    if t != [] {
      ByteSeqAt(t[1..]);
      forall i | 0 < i < |t| ensures ByteSeq(t)[i] == ByteParser(t[i]) {
        assert ByteSeq(t)[i] == ByteSeq(t[1..])[i - 1];
      }
    }
  }

  /** byteParsers over a string of bytes is ByteSeq of those bytes. */
  lemma ByteParsersOf(s: string, t: seq<byte>)
    requires |s| == |t| && forall i :: 0 <= i < |s| ==> s[i] as int < 0x100 && s[i] as byte == t[i]
    ensures ByteParsers(s) == ByteSeq(t)
  {
    ByteSeqAt(t);
  }

  /** A byte parser at its byte consumes it. */
  lemma ByteStep(c: byte, d: Deserializer)
    requires d.idx < |d.b| && d.b[d.idx] == c
    ensures ByteParser(c)(d) == (Read(d).0, c, OK(true))
  {
  }

  /** The bytes of t still sit at the cursor after reading the first of them. */
  lemma TextAtRest(d: Deserializer, t: seq<byte>)
    requires t != [] && TextAt(d, t)
    ensures d.idx < |d.b| && d.b[d.idx] == t[0] && TextAt(Read(d).0, t[1..])
  {
    assert d.b[d.idx + 0] == t[0];
    var e := Read(d).0;
    forall i | 0 <= i < |t| - 1 ensures e.b[e.idx + i] == t[1..][i] {
      assert e.b[e.idx + i] == d.b[d.idx + (i + 1)] == t[i + 1];
    }
  }

  lemma ConsSplit<T>(t: seq<T>)
    requires t != []
    ensures [t[0]] + t[1..] == t
  {
  }

  /** One valid step of ChainP's loop. */
  lemma ChainFromStep<I, O, R>(k: Kind<R>, ps: seq<Parser<I, O, R>>, ii: I, ii2: I, res: seq<O>)
    requires ps != [] && k.valid(ps[0](ii2).2)
    ensures ChainFrom(k, ps, ii, ii2, res) == ChainFrom(k, ps[1..], ii, ps[0](ii2).0, res + [ps[0](ii2).1])
  {
  }

  /** A chain of byte parsers for the bytes of t, run where t sits, matches all of t and consumes it. */
  lemma {:induction false} ByteChainFrom(t: seq<byte>, ii: Deserializer, ii2: Deserializer, res: seq<byte>)
    requires TextAt(ii2, t)
    ensures var r := ChainFrom(BK(), ByteSeq(t), ii, ii2, res);
      r.0.b == ii2.b && r.0.idx == ii2.idx + |t| && r.1 == res + t && r.2 == OK(true)
    decreases |t|
  {
    if t == [] {
      assert res + t == res;
    } else {
      var ps := ByteSeq(t);
      assert ps[0] == ByteParser(t[0]) && ps[1..] == ByteSeq(t[1..]);
      TextAtRest(ii2, t);
      ByteStep(t[0], ii2);
      var e := Read(ii2).0;
      ChainFromStep(BK(), ps, ii, ii2, res);
      ByteChainFrom(t[1..], ii, e, res + [t[0]]);
      ConsSplit(t);
      AppendAssoc(res, [t[0]], t[1..]);
    }
  }

  lemma ByteChain(t: seq<byte>, d: Deserializer)
    requires TextAt(d, t)
    ensures var r := ChainP(BK(), ByteSeq(t))(d);
      r.0.b == d.b && r.0.idx == d.idx + |t| && r.1 == t && r.2 == OK(true)
  {
    ByteChainFrom(t, d, d, []);
    assert [] + t == t;
  }

  /** A matching text parser, mapped to a value, made a combinator result and located, yields g of its text. */
  lemma TextOutputAt(p: Parser<Deserializer, seq<byte>, BoolResult>, g: seq<byte> -> Value, d: Deserializer)
    requires p(d).2 == OK(true)
    ensures var r := OutputParser(BoolToC(Map(BK(), p, g, NullValue)))(d);
      r.0 == p(d).0 && r.2 == COK(true) && r.1.value == g(p(d).1)
  {
    var m := Map(BK(), p, g, NullValue);
    MapAt(BK(), p, g, NullValue, d);
    var c: Parser<Deserializer, Value, CR> := BoolToC(m);
    assert c(d) == (m(d).0, m(d).1, m(d).2.ToC());
    MapAt(CK(), LocParser(c), OutputOf, ZeroOutput, d);
  }

  /** nullParser at "null" matches it and yields null. */
  lemma NullMatches(d: Deserializer)
    requires TextAt(d, NULL_TEXT)
    ensures var r := NullParser()(d);
      r.2 == COK(true) && r.1.value == NullValue && r.0.b == d.b && r.0.idx == d.idx + 4
  {
    ByteParsersOf("null", NULL_TEXT);
    ByteChain(NULL_TEXT, d);
    TextOutputAt(ChainP(BK(), ByteParsers("null")), NullOfText, d);
  }

  /** The two alternatives inside boolParser. */
  function BoolAlternatives(): seq<Parser<Deserializer, seq<byte>, BoolResult>>
  {
    [ChainP(BK(), ByteParsers("true")), ChainP(BK(), ByteParsers("false"))]
  }

  lemma BoolTexts()
    ensures ByteParsers("true") == ByteSeq(TRUE_TEXT)
    ensures ByteParsers("false") == ByteSeq(FALSE_TEXT)
    ensures Bytes("true") == TRUE_TEXT
  {
    ByteParsersOf("true", TRUE_TEXT);
    ByteParsersOf("false", FALSE_TEXT);
  }

  lemma TrueTextMatches(d: Deserializer)
    requires TextAt(d, TRUE_TEXT)
    ensures var p := TryP(BK(), BoolAlternatives(), [])(d);
      p.2 == OK(true) && p.1 == TRUE_TEXT
  {
    BoolTexts();
    var alts := BoolAlternatives();
    assert alts[0] == ChainP(BK(), ByteSeq(TRUE_TEXT));
    ByteChain(TRUE_TEXT, d);
    TryFirstValid(BK(), alts, d, [], 0);
  }

  /** The chain for "true" declines at a byte other than 't'. */
  lemma TrueChainDeclines(d: Deserializer)
    requires NotAt(d, 't' as byte)
    ensures !BK().valid(ChainP(BK(), ByteSeq(TRUE_TEXT))(d).2)
  {
    var t := ByteSeq(TRUE_TEXT);
    assert t[0] == ByteParser('t' as byte);
    ChainHeadInvalid(BK(), t, d);
  }

  lemma BoolAlternativesAre()
    ensures BoolAlternatives()[0] == ChainP(BK(), ByteSeq(TRUE_TEXT))
    ensures BoolAlternatives()[1] == ChainP(BK(), ByteSeq(FALSE_TEXT))
  {
    BoolTexts();
  }

  /** At "false" the chain for "true" declines and the chain for "false" matches. */
  lemma FalseTextParts(d: Deserializer)
    requires TextAt(d, FALSE_TEXT)
    ensures !BK().valid(BoolAlternatives()[0](d).2)
    ensures BoolAlternatives()[1](d).2 == OK(true) && BoolAlternatives()[1](d).1 == FALSE_TEXT
  {
    BoolAlternativesAre();
    TextAtRest(d, FALSE_TEXT);
    TrueChainDeclines(d);
    ByteChain(FALSE_TEXT, d);
  }

  /** tryParser over two parsers where the first declines and the second matches. */
  lemma TryPSecond<I, O, R>(k: Kind<R>, p0: Parser<I, O, R>, p1: Parser<I, O, R>, ii: I, zero: O)
    requires !k.valid(p0(ii).2) && k.valid(p1(ii).2)
    ensures TryP(k, [p0, p1], zero)(ii) == (p1(ii).0, p1(ii).1, OK(true))
  {
    var ps := [p0, p1];
    assert ps[0] == p0 && ps[1] == p1;
    TryFirstValid(k, ps, ii, zero, 1);
  }

  lemma FalseTextMatches(d: Deserializer)
    requires TextAt(d, FALSE_TEXT)
    ensures var p := TryP(BK(), BoolAlternatives(), [])(d);
      p.2 == OK(true) && p.1 == FALSE_TEXT
  {
    FalseTextParts(d);
    BoolAlternativesAre();
    TryPSecond(BK(), ChainP(BK(), ByteSeq(TRUE_TEXT)), ChainP(BK(), ByteSeq(FALSE_TEXT)), d, []);
  }

  /** The alternation inside boolParser at "true" or "false" matches that text. */
  lemma BoolTextMatches(d: Deserializer, x: bool)
    requires TextAt(d, BoolText(x))
    ensures var p := TryP(BK(), BoolAlternatives(), [])(d);
      p.2 == OK(true) && p.1 == BoolText(x)
  {
    if x {
      TrueTextMatches(d);
    } else {
      FalseTextMatches(d);
    }
  }

  /** boolParser at "true" or "false" matches it and yields that boolean. */
  lemma BoolMatches(d: Deserializer, x: bool)
    requires TextAt(d, BoolText(x))
    ensures var r := BoolParser()(d);
      r.2 == COK(true) && r.1.value == BoolValue(x)
  {
    BoolTextMatches(d, x);
    assert BoolOfText(BoolText(x)) == BoolValue(x) by {
      BoolTexts();
      assert FALSE_TEXT != TRUE_TEXT;
    }
    TextOutputAt(TryP(BK(), BoolAlternatives(), []), BoolOfText, d);
  }

  /** After n bytes from the cursor the input ends or holds a byte that cannot continue a number. */
  predicate NumberEndsAfter(d: Deserializer, n: nat)
  {
    d.idx + n == |d.b| || (d.idx + n < |d.b| && !IsDigit(d.b[d.idx + n]) && d.b[d.idx + n] != DOT)
  }

  /** digitsParser at a run of digits that ends the number consumes exactly that run. */
  lemma DigitRun(d: Deserializer, t: seq<byte>)
    requires t != [] && (forall i :: 0 <= i < |t| ==> IsDigit(t[i]))
    requires TextAt(d, t) && NumberEndsAfter(d, |t|)
    ensures var run := DigitsParser()(d); run.1 == t && run.0.idx == d.idx + |t|
  {
    PredicateParserSpec(d, IsDigit);
    var run := DigitsParser()(d);
    assert d.b[d.idx + 0] == t[0];
    // Every byte of t and every byte of the run is a digit, so the run ends exactly where t does.
    forall j | d.idx <= j < d.idx + |t| ensures IsDigit(d.b[j]) {
      assert d.b[d.idx + (j - d.idx)] == t[j - d.idx];
    }
    forall j | d.idx <= j < run.0.idx ensures IsDigit(d.b[j]) {
      assert d.b[j] == run.1[j - d.idx];
    }
    forall k | 0 <= k < |t| ensures run.1[k] == t[k] {
      assert run.1[k] == d.b[d.idx + k];
    }
  }

  /** positiveNumberParser at the digits of i, where the number ends, yields the integer i. */
  lemma PositiveAtDigits(f: Foreign, d: Deserializer, i: uint64)
    requires TextAt(d, DecimalDigits(i as nat)) && NumberEndsAfter(d, |DecimalDigits(i as nat)|)
    ensures var r := PositiveNumberParser(f)(d); r.2 == COK(true) && r.1 == IntegerNumber(i)
  {
    var t := DecimalDigits(i as nat);
    DigitRun(d, t);
    assert d.b[d.idx + 0] == t[0];
    PlainDigitsAreInteger(f, d);
  }

  /** numberParser's alternation at the digits of i yields the non-negative integer i. */
  lemma SignedAtDigits(f: Foreign, d: Deserializer, i: uint64)
    requires TextAt(d, DecimalDigits(i as nat)) && NumberEndsAfter(d, |DecimalDigits(i as nat)|)
    ensures var r := SignedNumberParser(f)(d); r.2 == COK(true) && r.1 == IntegerNumber(i)
  {
    var t := DecimalDigits(i as nat);
    assert d.b[d.idx + 0] == t[0];
    PositiveAtDigits(f, d, i);
    NegativeNoMatch(f, d);
    TryCPair(NegativeNumberParser(f), PositiveNumberParser(f), d, ZeroNumber);
  }

  /** A matching number parser, mapped to a value and located, yields that number as the output's value. */
  lemma NumberOutputAt(p: Parser<Deserializer, Number, CR>, d: Deserializer)
    requires p(d).2 == COK(true)
    ensures var r := OutputParser(Map(CK(), p, NumberOf, NullValue))(d);
      r.2 == COK(true) && r.1.value == NumberValue(p(d).1)
  {
    var m := Map(CK(), p, NumberOf, NullValue);
    MapAt(CK(), p, NumberOf, NullValue, d);
    MapAt(CK(), LocParser(m), OutputOf, ZeroOutput, d);
  }

  /** When the signed alternation matches, numberParser yields its number as a value. */
  lemma NumberOfSigned(f: Foreign, d: Deserializer)
    requires SignedNumberParser(f)(d).2 == COK(true)
    ensures NumberParser(f)(d).2 == COK(true) && NumberParser(f)(d).1.value == NumberValue(SignedNumberParser(f)(d).1)
  {
    NumberOutputAt(SignedNumberParser(f), d);
  }

  /** numberParser at the digits of i, where the number ends, yields the integer i. */
  lemma IntegerMatches(f: Foreign, d: Deserializer, i: uint64)
    requires TextAt(d, DecimalDigits(i as nat)) && NumberEndsAfter(d, |DecimalDigits(i as nat)|)
    ensures var r := NumberParser(f)(d);
      r.2 == COK(true) && r.1.value == NumberValue(IntegerNumber(i))
  {
    SignedAtDigits(f, d, i);
    NumberOfSigned(f, d);
  }

  /** None of the first j alternatives decides at d. */
  predicate DeclinedBefore<O>(alts: seq<Parser<Deserializer, O, CR>>, d: Deserializer, j: nat)
    requires j <= |alts|
  {
    j == 0 || (DeclinedBefore(alts, d, j - 1) && !Decisive(alts[j - 1](d).2))
  }

  lemma {:induction false} DeclinedBeforeAll<O>(alts: seq<Parser<Deserializer, O, CR>>, d: Deserializer, j: nat)
    requires j <= |alts| && DeclinedBefore(alts, d, j)
    ensures forall i :: 0 <= i < j ==> !Decisive(alts[i](d).2)
  {
    if j > 0 {
      DeclinedBeforeAll(alts, d, j - 1);
    }
  }

  /** Alternative j matches at d and yields v. */
  predicate Yields(alts: seq<Parser<Deserializer, Output, CR>>, d: Deserializer, j: nat, v: Value)
    requires j < |alts|
  {
    alts[j](d).2 == COK(true) && alts[j](d).1.value == v
  }

  /**
   * The input starts with a byte that is not white space, at which alternative j of jsonParserC
   * yields v and no earlier alternative decides.
   */
  predicate Picks(f: Foreign, b: seq<byte>, j: nat, v: Value)
    requires j < 6
  {
    var alts := Alternatives(f, |b| + 1);
    0 < |b| && !IsSpace(b[0]) && DeclinedBefore(alts, Start(b), j) && Yields(alts, Start(b), j, v)
  }

  /** When alternative j picks v at the start of the input, Deserialize returns v. */
  lemma DeserializeAlternative(f: Foreign, b: seq<byte>, j: nat, v: Value)
    requires j < 6 && Picks(f, b, j, v)
    ensures Deserialize(f, b) == Success(v)
  {
    var d, depth := Start(b), |b| + 1;
    var alts := Alternatives(f, depth);
    SkipSpaceStops(d);
    DeclinedBeforeAll(alts, d, j);
    TryCFirstDecisive(alts, d, ZeroOutput, j);
    var c := JsonC(f, depth)(d);
    assert c == TryC(alts, ZeroOutput)(d);
    assert c == (alts[j](d).0, alts[j](d).1, COK(true));
    assert JsonE(f, depth)(d) == (c.0, c.1, MustMatch(c.0, c.2));
  }

  /** At "null" the first alternative, nullParser, yields null. */
  lemma NullYields(f: Foreign, depth: nat, d: Deserializer)
    requires TextAt(d, NULL_TEXT)
    ensures Yields(Alternatives(f, depth), d, 0, NullValue)
  {
    NullMatches(d);
    assert Alternatives(f, depth)[0] == Alternative(f, depth, 0);
  }

  lemma NullFirst(f: Foreign, b: seq<byte>)
    requires TextAt(Start(b), NULL_TEXT)
    ensures Picks(f, b, 0, NullValue)
  {
    TextAtRest(Start(b), NULL_TEXT);
    NullYields(f, |b| + 1, Start(b));
  }

  /** At 't' or 'f' nullParser declines. */
  lemma NullDeclines(f: Foreign, depth: nat, d: Deserializer)
    requires NotAt(d, 'n' as byte)
    ensures DeclinedBefore(Alternatives(f, depth), d, 1)
  {
    NullNoMatch(d);
    assert Alternatives(f, depth)[0] == Alternative(f, depth, 0);
  }

  /** At "true" or "false" boolParser yields the boolean. */
  lemma BoolYields(f: Foreign, depth: nat, d: Deserializer, x: bool)
    requires TextAt(d, BoolText(x))
    ensures Yields(Alternatives(f, depth), d, 1, BoolValue(x))
  {
    BoolMatches(d, x);
    assert Alternatives(f, depth)[1] == Alternative(f, depth, 1);
  }

  /** At "true" or "false" nullParser declines and boolParser yields the boolean. */
  lemma BoolChosen(f: Foreign, depth: nat, d: Deserializer, x: bool)
    requires TextAt(d, BoolText(x)) && NotAt(d, 'n' as byte)
    ensures DeclinedBefore(Alternatives(f, depth), d, 1) && Yields(Alternatives(f, depth), d, 1, BoolValue(x))
  {
    NullDeclines(f, depth, d);
    BoolYields(f, depth, d, x);
  }

  lemma BoolSecond(f: Foreign, b: seq<byte>, x: bool)
    requires TextAt(Start(b), BoolText(x))
    ensures Picks(f, b, 1, BoolValue(x))
  {
    TextAtRest(Start(b), BoolText(x));
    BoolChosen(f, |b| + 1, Start(b), x);
  }

  /** At a digit nullParser and boolParser decline. */
  lemma NullBoolDecline(f: Foreign, depth: nat, d: Deserializer)
    requires NotAt(d, 'n' as byte) && NotAt(d, 't' as byte) && NotAt(d, 'f' as byte)
    ensures DeclinedBefore(Alternatives(f, depth), d, 2)
  {
    NullDeclines(f, depth, d);
    BoolNoMatch(d);
    assert Alternatives(f, depth)[1] == Alternative(f, depth, 1);
  }

  /** At the digits of i, where the number ends, numberParser yields i. */
  lemma IntegerYields(f: Foreign, depth: nat, d: Deserializer, i: uint64)
    requires TextAt(d, DecimalDigits(i as nat)) && NumberEndsAfter(d, |DecimalDigits(i as nat)|)
    ensures Yields(Alternatives(f, depth), d, 2, NumberValue(IntegerNumber(i)))
  {
    IntegerMatches(f, d, i);
    assert Alternatives(f, depth)[2] == Alternative(f, depth, 2);
  }

  /** At the digits of i nullParser and boolParser decline and numberParser yields i. */
  lemma IntegerChosen(f: Foreign, depth: nat, d: Deserializer, i: uint64)
    requires TextAt(d, DecimalDigits(i as nat)) && NumberEndsAfter(d, |DecimalDigits(i as nat)|)
    requires NotAt(d, 'n' as byte) && NotAt(d, 't' as byte) && NotAt(d, 'f' as byte)
    ensures DeclinedBefore(Alternatives(f, depth), d, 2)
    ensures Yields(Alternatives(f, depth), d, 2, NumberValue(IntegerNumber(i)))
  {
    NullBoolDecline(f, depth, d);
    IntegerYields(f, depth, d, i);
  }

  lemma IntegerThird(f: Foreign, b: seq<byte>, i: uint64)
    requires TextAt(Start(b), DecimalDigits(i as nat)) && NumberEndsAfter(Start(b), |DecimalDigits(i as nat)|)
    ensures Picks(f, b, 2, NumberValue(IntegerNumber(i)))
  {
    TextAtRest(Start(b), DecimalDigits(i as nat));
    IntegerChosen(f, |b| + 1, Start(b), i);
  }

  /** Input that starts with "null" deserializes to null. */
  lemma NullInput(f: Foreign, b: seq<byte>)
    requires TextAt(Start(b), NULL_TEXT)
    ensures Deserialize(f, b) == Success(NullValue)
  {
    NullFirst(f, b);
    DeserializeAlternative(f, b, 0, NullValue);
  }

  /** Input that starts with "true" or "false" deserializes to that boolean. */
  lemma BoolInput(f: Foreign, b: seq<byte>, x: bool)
    requires TextAt(Start(b), BoolText(x))
    ensures Deserialize(f, b) == Success(BoolValue(x))
  {
    BoolSecond(f, b, x);
    DeserializeAlternative(f, b, 1, BoolValue(x));
  }

  /** Input that starts with the digits of i, where the number ends, deserializes to the integer i. */
  lemma IntegerInput(f: Foreign, b: seq<byte>, i: uint64)
    requires TextAt(Start(b), DecimalDigits(i as nat)) && NumberEndsAfter(Start(b), |DecimalDigits(i as nat)|)
    ensures Deserialize(f, b) == Success(NumberValue(IntegerNumber(i)))
  {
    IntegerThird(f, b, i);
    DeserializeAlternative(f, b, 2, NumberValue(IntegerNumber(i)));
  }

  /** Text t followed by anything sits at the start of the input. */
  lemma TextAtStart(t: seq<byte>, rest: seq<byte>)
    ensures TextAt(Start(t + rest), t)
  {
    var d := Start(t + rest);
    forall i | 0 <= i < |t| ensures d.b[d.idx + i] == t[i] {
      assert d.b[d.idx + i] == (t + rest)[i];
    }
  }

  /** When rest cannot continue a number, a number written as t ends where rest begins. */
  lemma NumberEndsAtRest(t: seq<byte>, rest: seq<byte>)
    requires rest == [] || (!IsDigit(rest[0]) && rest[0] != DOT)
    ensures NumberEndsAfter(Start(t + rest), |t|)
  {
    if rest != [] {
      assert (t + rest)[|t|] == rest[0];
    }
  }

  /** What Serialize writes for null reads back as null, whatever follows it. */
  lemma NullRoundTrip(f: Foreign, s: Serializer, c: Formatters, level: nat, rest: seq<byte>)
    ensures Deserialize(f, Render(s, c, level, NullValue) + rest) == Success(NullValue)
  {
    TextAtStart(NULL_TEXT, rest);
    NullInput(f, NULL_TEXT + rest);
  }

  /** What Serialize writes for a boolean reads back as that boolean, whatever follows it. */
  lemma BoolRoundTrip(f: Foreign, s: Serializer, c: Formatters, level: nat, x: bool, rest: seq<byte>)
    ensures Deserialize(f, Render(s, c, level, BoolValue(x)) + rest) == Success(BoolValue(x))
  {
    TextAtStart(BoolText(x), rest);
    BoolInput(f, BoolText(x) + rest, x);
  }

  /**
   * What Serialize writes for a non-negative integer reads back as that integer when the next
   * byte, if any, cannot continue a number.
   */
  lemma IntegerRoundTrip(f: Foreign, s: Serializer, c: Formatters, level: nat, i: uint64, rest: seq<byte>)
    requires rest == [] || (!IsDigit(rest[0]) && rest[0] != DOT)
    ensures Deserialize(f, Render(s, c, level, NumberValue(IntegerNumber(i))) + rest)
         == Success(NumberValue(IntegerNumber(i)))
  {
    var t := DecimalDigits(i as nat);
    TextAtStart(t, rest);
    NumberEndsAtRest(t, rest);
    IntegerInput(f, t + rest, i);
  }

  // ---------------------------------------------------------------- negative integers

  /** The minus of a number and the digits of i after it, with the number ending there. */
  predicate MinusDigitsAt(d: Deserializer, i: uint64)
  {
    d.idx < |d.b| && d.b[d.idx] == MINUS
    && TextAt(Read(d).0, DecimalDigits(i as nat)) && NumberEndsAfter(Read(d).0, |DecimalDigits(i as nat)|)
  }

  /** negativeNumberParser at '-' and the digits of i yields i marked negative. */
  lemma NegativeAtDigits(f: Foreign, d: Deserializer, i: uint64)
    requires MinusDigitsAt(d, i)
    ensures var r := NegativeNumberParser(f)(d); r.2 == COK(true) && r.1 == Negated(IntegerNumber(i))
  {
    var e := Read(d).0;
    PositiveAtDigits(f, e, i);
    var pos := PositiveNumberParser(f)(e);
    var minus := Discard(BK(), ByteParser(MINUS));
    ByteStep(MINUS, d);
    assert minus(d).0 == e && minus(d).2 == OK(true);
    ChainOne(BK(), minus, d);
    var none: seq<Parser<Deserializer, Empty, CR>> := [];
    assert ChainP(CK(), none)(pos.0) == (pos.0, [], COK(true));
    var sur := Surround([minus], PositiveNumberParser(f), none, ZeroNumber);
    assert sur(d) == (pos.0, IntegerNumber(i), COK(true));
    MapAt(CK(), sur, Negated, ZeroNumber, d);
  }

  /** numberParser at '-' and the digits of i yields -i. */
  lemma NegativeMatches(f: Foreign, d: Deserializer, i: uint64)
    requires MinusDigitsAt(d, i)
    ensures var r := NumberParser(f)(d);
      r.2 == COK(true) && r.1.value == NumberValue(Negated(IntegerNumber(i)))
  {
    NegativeAtDigits(f, d, i);
    TryCPair(NegativeNumberParser(f), PositiveNumberParser(f), d, ZeroNumber);
    NumberOfSigned(f, d);
  }

  /** At '-' and the digits of i nullParser and boolParser decline and numberParser yields -i. */
  lemma NegativeChosen(f: Foreign, depth: nat, d: Deserializer, i: uint64)
    requires MinusDigitsAt(d, i)
    ensures DeclinedBefore(Alternatives(f, depth), d, 2)
    ensures Yields(Alternatives(f, depth), d, 2, NumberValue(Negated(IntegerNumber(i))))
  {
    NullBoolDecline(f, depth, d);
    NegativeMatches(f, d, i);
    assert Alternatives(f, depth)[2] == Alternative(f, depth, 2);
  }

  /** A number that starts with '-' does not start with white space or the first byte of null or a boolean. */
  lemma NegativeFirstByte(d: Deserializer, i: uint64)
    requires MinusDigitsAt(d, i)
    ensures !IsSpace(d.b[d.idx]) && NotAt(d, 'n' as byte) && NotAt(d, 't' as byte) && NotAt(d, 'f' as byte)
  {
  }

  lemma NegativeThird(f: Foreign, b: seq<byte>, i: uint64)
    requires MinusDigitsAt(Start(b), i)
    ensures Picks(f, b, 2, NumberValue(Negated(IntegerNumber(i))))
  {
    NegativeFirstByte(Start(b), i);
    NegativeChosen(f, |b| + 1, Start(b), i);
  }

  /** Input that starts with '-' and the digits of i, where the number ends, deserializes to -i. */
  lemma NegativeInput(f: Foreign, b: seq<byte>, i: uint64)
    requires MinusDigitsAt(Start(b), i)
    ensures Deserialize(f, b) == Success(NumberValue(Negated(IntegerNumber(i))))
  {
    NegativeThird(f, b, i);
    DeserializeAlternative(f, b, 2, NumberValue(Negated(IntegerNumber(i))));
  }

  /** '-' and the digits of i, followed by what cannot continue a number, start the input. */
  lemma MinusDigitsAtStart(i: uint64, rest: seq<byte>)
    requires rest == [] || (!IsDigit(rest[0]) && rest[0] != DOT)
    ensures MinusDigitsAt(Start([MINUS] + DecimalDigits(i as nat) + rest), i)
  {
    var t := DecimalDigits(i as nat);
    var b := [MINUS] + t + rest;
    var e := Read(Start(b)).0;
    assert b[0] == MINUS;
    assert e.idx == 1 && e.b == b;
    forall k | 0 <= k < |t| ensures e.b[e.idx + k] == t[k] {
      assert b[1 + k] == t[k];
    }
    if rest != [] {
      assert b[1 + |t|] == rest[0];
    }
  }

  /** As written, a negative integer is serialized as its magnitude and reads back without its sign. */
  lemma NegativeSignLost(f: Foreign, s: Serializer, c: Formatters, level: nat, i: uint64)
    ensures Deserialize(f, Render(s, c, level, NumberValue(Negated(IntegerNumber(i)))))
         == Success(NumberValue(IntegerNumber(i)))
    ensures NumberValue(Negated(IntegerNumber(i))) != NumberValue(IntegerNumber(i))
  {
    SignNotRendered(c, Negated(IntegerNumber(i)));
    IntegerRoundTrip(f, s, c, level, i, []);
    assert Render(s, c, level, NumberValue(IntegerNumber(i))) + [] == Render(s, c, level, NumberValue(IntegerNumber(i)));
  }

  /**
   * With the sign written, what the serializer evidently means to write for a negative integer
   * reads back as that negative integer when the next byte, if any, cannot continue a number.
   */
  lemma NegativeIntegerRoundTrip(f: Foreign, c: Formatters, i: uint64, rest: seq<byte>)
    requires rest == [] || (!IsDigit(rest[0]) && rest[0] != DOT)
    ensures Deserialize(f, SignedNumberText(c, Negated(IntegerNumber(i))) + rest)
         == Success(NumberValue(Negated(IntegerNumber(i))))
  {
    MinusDigitsAtStart(i, rest);
    NegativeInput(f, [MINUS] + DecimalDigits(i as nat) + rest, i);
  }
}
