/**
 * What the number grammar of deserialize.go accepts: `intParser` converts the maximal digit
 * run (leading zeros allowed, 2^64 and above rejected), `positiveNumberParser` prefers
 * digits '.' digits over plain digits, and `numberParser` marks a number negative exactly
 * when a '-' precedes it.
 */
module NumberFacts {
  import opened Wrappers
  import opened FuncParser
  import opened GenJson
  import opened Cursor
  import opened Grammar
  import opened GrammarFacts

  /**
   * intParser on the digit run at the cursor: no digit is a plain no-match; a run whose
   * decimal value is below 2^64 yields that value after the run; a larger run is a range
   * error that leaves the cursor where it was.
   */
  lemma IntParserSpec(d: Deserializer)
    requires d.idx <= |d.b|
    ensures var run := DigitsParser()(d);
      && d.idx <= run.0.idx <= |d.b|
      && run.1 == d.b[d.idx..run.0.idx]
      && (forall i :: 0 <= i < |run.1| ==> IsDigit(run.1[i]))
      && (run.1 == [] ==> IntParser()(d) == (d, 0, COK(false)))
      && (run.1 != [] && DecimalValue(run.1) < TWO64 ==>
            IntParser()(d) == (run.0, DecimalValue(run.1) as uint64, COK(true)))
      && (run.1 != [] && DecimalValue(run.1) >= TWO64 ==>
            IntParser()(d) == (d, 0, CErr(UintRange(run.1))))
  {
    PredicateParserSpec(d, IsDigit);
    var run := DigitsParser()(d);
    var inner := BoolToC<Deserializer, seq<byte>, Error>(DigitsParser());
    assert inner(d) == (run.0, run.1, run.2.ToC());
    assert run.2.Valid() <==> run.1 != [];
  }

  /** A digit run that a '.' does not follow is not a float: floatParser declines without consuming. */
  lemma FloatNeedsDot(f: Foreign, d: Deserializer)
    requires d.idx <= |d.b|
    requires var run := DigitsParser()(d); run.0.idx >= |d.b| || d.b[run.0.idx] != '.' as byte
    ensures FloatParser(f)(d) == (d, 0, COK(false))
  {
    PredicateParserSpec(d, IsDigit);
    var fl := FloatParts();
    var run := fl[0](d);
    if !run.2.Valid() {
      ChainHeadInvalid(BK(), fl, d);
    } else {
      ChainHeadInvalid(BK(), [ByteParser('.' as byte)], run.0);
      assert !fl[1](run.0).2.Valid();
      assert fl[1..][0] == fl[1];
      assert ChainFrom(BK(), fl, d, d, []) == ChainFrom(BK(), fl[1..], d, run.0, [run.1]);
      assert ChainP(BK(), fl)(d) == (d, [], OK(false));
    }
    assert BoolToC<Deserializer, seq<byte>, Error>(FlattenP(BK(), fl))(d).2 == COK(false);
  }

  /** The three parts of floatParser chained: both digit runs and the '.' between them. */
  lemma FloatChain(d: Deserializer)
    requires d.idx <= |d.b|
    requires var a := DigitsParser()(d); a.2.Valid() && a.0.idx < |d.b| && d.b[a.0.idx] == '.' as byte
    ensures var a := DigitsParser()(d); var c := DigitsParser()(Read(a.0).0);
      && var r := ChainP(BK(), FloatParts())(d);
      && (c.2.Valid() ==> r == (c.0, [a.1, ['.' as byte], c.1], OK(true)))
      && (!c.2.Valid() ==> r == (d, [], c.2))
  {
    PredicateParserSpec(d, IsDigit);
    var a := DigitsParser()(d);
    var dotP := ByteParser('.' as byte);
    ChainOne(BK(), dotP, a.0);
    assert ChainP(BK(), [dotP])(a.0) == (Read(a.0).0, ['.' as byte], OK(true));
    ChainThree(BK(), DigitsParser(), ChainP(BK(), [dotP]), DigitsParser(), d);
  }

  lemma SliceAround(b: seq<byte>, i: nat, j: nat, k: nat)
    requires i <= j < k <= |b|
    ensures b[i..k] == b[i..j] + [b[j]] + b[j + 1..k]
  {
  }

  /** The bytes floatParser gathers when its three parts match: the span of digits '.' digits. */
  lemma FloatPartsMatch(d: Deserializer)
    requires d.idx <= |d.b|
    requires var a := DigitsParser()(d); a.2.Valid() && a.0.idx < |d.b| && d.b[a.0.idx] == '.' as byte
    ensures var a := DigitsParser()(d); var c := DigitsParser()(Read(a.0).0);
      && d.idx < c.0.idx <= |d.b|
      && var r := FlattenP(BK(), FloatParts())(d);
      && (c.2.Valid() ==> r == (c.0, d.b[d.idx..c.0.idx], OK(true)))
      && (!c.2.Valid() ==> r == (d, [], OK(false)))
  {
    PredicateParserSpec(d, IsDigit);
    var a := DigitsParser()(d);
    var e := Read(a.0).0;
    PredicateParserSpec(e, IsDigit);
    var c := DigitsParser()(e);
    FloatChain(d);
    MapAt(BK(), ChainP(BK(), FloatParts()), Concat, [], d);
    if c.2.Valid() {
      assert FlattenP(BK(), FloatParts())(d) == (c.0, Concat([a.1, ['.' as byte], c.1]), OK(true));
      ConcatThree(a.1, ['.' as byte], c.1);
      SliceAround(d.b, d.idx, a.0.idx, c.0.idx);
      assert a.1 + ['.' as byte] + c.1 == d.b[d.idx..c.0.idx];
    }
  }

  /**
   * floatParser: after digits and '.', a second digit run is needed (else no match); the
   * span digits '.' digits is handed to ParseFloat, whose failure is an error that rewinds.
   */
  lemma FloatParserSpec(f: Foreign, d: Deserializer)
    requires d.idx <= |d.b|
    requires var a := DigitsParser()(d); a.2.Valid() && a.0.idx < |d.b| && d.b[a.0.idx] == '.' as byte
    ensures var a := DigitsParser()(d); var c := DigitsParser()(Read(a.0).0);
      && d.idx < c.0.idx <= |d.b|
      && var text := d.b[d.idx..c.0.idx];
      && (!c.2.Valid() ==> FloatParser(f)(d) == (d, 0, COK(false)))
      && (c.2.Valid() ==>
            FloatParser(f)(d) == (match f.parseFloat(text)
                                  case Some(x) => (c.0, x, COK(true))
                                  case None => (d, 0, CErr(FloatError(text)))))
  {
    FloatPartsMatch(d);
    var inner := BoolToC<Deserializer, seq<byte>, Error>(FlattenP(BK(), FloatParts()));
    assert inner(d) == (FlattenP(BK(), FloatParts())(d).0, FlattenP(BK(), FloatParts())(d).1, FlattenP(BK(), FloatParts())(d).2.ToC());
  }

  lemma FloatAlternativeStep(f: Foreign, d: Deserializer)
    ensures var p := FloatParser(f)(d);
      FloatAlternative(f)(d) == (p.0, if p.2.Valid() then FloatNumber(p.1) else ZeroNumber, p.2)
  {
    MapAt(CK(), FloatParser(f), FloatNumber, ZeroNumber, d);
  }

  lemma IntAlternativeStep(d: Deserializer)
    ensures var p := IntParser()(d);
      IntAlternative()(d) == (p.0, if p.2.Valid() then IntegerNumber(p.1) else ZeroNumber, p.2)
  {
  }

  /** Every result of positiveNumberParser, the zero number included, is non-negative. */
  lemma PositiveNumberNotNegative(f: Foreign, d: Deserializer)
    ensures !PositiveNumberParser(f)(d).1.IsNeg
  {
    FloatAlternativeStep(f, d);
    IntAlternativeStep(d);
    TryCPair(FloatAlternative(f), IntAlternative(), d, ZeroNumber);
  }

  /** positiveNumberParser tries digits '.' digits first: a float match is taken as a float. */
  lemma PositivePrefersFloat(f: Foreign, d: Deserializer)
    requires FloatParser(f)(d).2.Valid()
    ensures PositiveNumberParser(f)(d) == (FloatParser(f)(d).0, FloatNumber(FloatParser(f)(d).1), COK(true))
  {
    FloatAlternativeStep(f, d);
    TryCPair(FloatAlternative(f), IntAlternative(), d, ZeroNumber);
  }

  /** When no float is there, positiveNumberParser is intParser with its value as an integer number. */
  lemma PositiveFallsBackToInt(f: Foreign, d: Deserializer)
    requires FloatParser(f)(d).2 == COK(false)
    ensures var i := IntParser()(d);
      PositiveNumberParser(f)(d) == (i.0, if i.2.Valid() then IntegerNumber(i.1) else ZeroNumber, i.2)
  {
    FloatAlternativeStep(f, d);
    IntAlternativeStep(d);
    TryCPair(FloatAlternative(f), IntAlternative(), d, ZeroNumber);
  }

  /**
   * Digits that no '.' follows are an integer: its decimal value after the run, or a range
   * error from 2^64 on ("0123" is 123, "18446744073709551616" is out of range).
   */
  lemma PlainDigitsAreInteger(f: Foreign, d: Deserializer)
    requires d.idx < |d.b| && IsDigit(d.b[d.idx])
    requires var run := DigitsParser()(d); run.0.idx >= |d.b| || d.b[run.0.idx] != '.' as byte
    ensures var run := DigitsParser()(d);
      && (forall i :: 0 <= i < |run.1| ==> IsDigit(run.1[i]))
      && (DecimalValue(run.1) < TWO64 ==>
            PositiveNumberParser(f)(d) == (run.0, IntegerNumber(DecimalValue(run.1) as uint64), COK(true)))
      && (DecimalValue(run.1) >= TWO64 ==>
            PositiveNumberParser(f)(d) == (d, ZeroNumber, CErr(UintRange(run.1))))
  {
    PredicateParserSpec(d, IsDigit);
    FloatNeedsDot(f, d);
    PositiveFallsBackToInt(f, d);
    IntParserSpec(d);
  }

  /**
   * numberParser marks its number negative exactly when the input starts with '-': the
   * negative alternative needs the '-', and the positive one never sets the flag.
   */
  lemma NumberSign(f: Foreign, d: Deserializer)
    requires d.idx <= |d.b|
    ensures var r := SignedNumberParser(f)(d);
      r.2.Valid() ==> (r.1.IsNeg <==> d.idx < |d.b| && d.b[d.idx] == '-' as byte)
  {
    var alts := [NegativeNumberParser(f), PositiveNumberParser(f)];
    var pos := PositiveNumberParser(f)(d);
    PositiveNumberNotNegative(f, d);
    if d.idx < |d.b| && d.b[d.idx] == '-' as byte {
      if Decisive(alts[0](d).2) {
        TryCFirstDecisive(alts, d, ZeroNumber, 0);
        var m := Surround([Discard(BK(), ByteParser('-' as byte))], PositiveNumberParser(f), [], ZeroNumber);
        assert alts[0](d).2.Valid() ==> alts[0](d).1 == Negated(m(d).1);
      } else {
        PositiveNumberNoMatch(f, d);
        assert !Decisive(alts[1](d).2);
        TryCNoMatch(alts, d, ZeroNumber);
      }
    } else {
      NegativeNoMatch(f, d);
      assert !Decisive(alts[0](d).2);
      if Decisive(alts[1](d).2) {
        TryCFirstDecisive(alts, d, ZeroNumber, 1);
      } else {
        TryCNoMatch(alts, d, ZeroNumber);
      }
    }
  }
}
