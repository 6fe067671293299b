/**
 * What the grammar of deserialize.go does on inputs that hold no value where one is expected:
 * every value parser declines without consuming anything, and `jsonParserE` turns that into
 * `errNoMatch` at the first byte after the white space.
 */
module GrammarFacts {
  import opened Wrappers
  import opened FuncParser
  import opened GenJson
  import opened Cursor
  import opened Grammar

  /** The bytes a JSON value of this grammar can start with. */
  predicate StartsValue(x: byte)
  {
    x == 'n' as byte || x == 't' as byte || x == 'f' as byte || x == '-' as byte || IsDigit(x)
    || x == QUOTE || x == '[' as byte || x == '{' as byte
  }

  /** The cursor is at the end of input or at a byte other than c. */
  predicate NotAt(d: Deserializer, c: byte)
  {
    d.idx >= |d.b| || d.b[d.idx] != c
  }

  lemma OutputNoMatch(p: Parser<Deserializer, Value, CR>, d: Deserializer)
    requires p(d) == (d, p(d).1, COK(false))
    ensures OutputParser(p)(d) == (d, ZeroOutput, COK(false))
  {
  }

  lemma NullNoMatch(d: Deserializer)
    requires NotAt(d, 'n' as byte)
    ensures NullParser()(d) == (d, ZeroOutput, COK(false))
  {
    var ps := ByteParsers("null");
    assert ps[0] == ByteParser('n' as byte);
    ChainHeadInvalid(BK(), ps, d);
  }

  lemma BoolNoMatch(d: Deserializer)
    requires NotAt(d, 't' as byte) && NotAt(d, 'f' as byte)
    ensures BoolParser()(d) == (d, ZeroOutput, COK(false))
  {
    var t, f := ByteParsers("true"), ByteParsers("false");
    assert t[0] == ByteParser('t' as byte) && f[0] == ByteParser('f' as byte);
    ChainHeadInvalid(BK(), t, d);
    ChainHeadInvalid(BK(), f, d);
    var alts := [ChainP(BK(), t), ChainP(BK(), f)];
    TryNoneValid(BK(), alts, d, []);
  }

  lemma DigitsNoMatch(d: Deserializer)
    requires d.idx <= |d.b| && (d.idx >= |d.b| || !IsDigit(d.b[d.idx]))
    ensures DigitsParser()(d) == (d, [], OK(false))
  {
    PredicateParserSpec(d, IsDigit);
  }

  lemma IntNoMatch(d: Deserializer)
    requires d.idx <= |d.b| && (d.idx >= |d.b| || !IsDigit(d.b[d.idx]))
    ensures IntParser()(d) == (d, 0, COK(false))
  {
    DigitsNoMatch(d);
    assert BoolToC<Deserializer, seq<byte>, Error>(DigitsParser())(d) == (d, [], COK(false));
  }

  lemma FloatNoMatch(f: Foreign, d: Deserializer)
    requires d.idx <= |d.b| && (d.idx >= |d.b| || !IsDigit(d.b[d.idx]))
    ensures FloatParser(f)(d) == (d, 0, COK(false))
  {
    DigitsNoMatch(d);
    var fl := FloatParts();
    ChainHeadInvalid(BK(), fl, d);
    assert FlattenP(BK(), fl)(d).2 == OK(false);
    assert BoolToC<Deserializer, seq<byte>, Error>(FlattenP(BK(), fl))(d).2 == COK(false);
  }

  /** Without a digit at the cursor neither the float nor the integer parser matches. */
  lemma PositiveNumberNoMatch(f: Foreign, d: Deserializer)
    requires d.idx <= |d.b| && (d.idx >= |d.b| || !IsDigit(d.b[d.idx]))
    ensures PositiveNumberParser(f)(d) == (d, ZeroNumber, COK(false))
  {
    FloatNoMatch(f, d);
    IntNoMatch(d);
    var alts := [FloatAlternative(f), IntAlternative()];
    assert alts[0](d).2 == COK(false);
    assert alts[1](d).2 == COK(false);
    TryCNoMatch(alts, d, ZeroNumber);
  }

  /** Without a '-' at the cursor the negative alternative does not match. */
  lemma NegativeNoMatch(f: Foreign, d: Deserializer)
    requires NotAt(d, '-' as byte)
    ensures NegativeNumberParser(f)(d) == (d, ZeroNumber, COK(false))
  {
    var minus := [Discard(BK(), ByteParser('-' as byte))];
    ChainHeadInvalid(BK(), minus, d);
    SurroundRewinds(minus, PositiveNumberParser(f), [], ZeroNumber, d);
  }

  lemma NumberNoMatch(f: Foreign, d: Deserializer)
    requires d.idx <= |d.b| && NotAt(d, '-' as byte) && (d.idx >= |d.b| || !IsDigit(d.b[d.idx]))
    ensures NumberParser(f)(d) == (d, ZeroOutput, COK(false))
  {
    NegativeNoMatch(f, d);
    PositiveNumberNoMatch(f, d);
    var alts := [NegativeNumberParser(f), PositiveNumberParser(f)];
    assert alts[0](d).2 == COK(false);
    assert alts[1](d).2 == COK(false);
    TryCNoMatch(alts, d, ZeroNumber);
    var inner := Map(CK(), SignedNumberParser(f), (n: Number) => NumberValue(n), NullValue);
    assert inner(d) == (d, NullValue, COK(false));
    OutputNoMatch(inner, d);
  }

  lemma RawStringNoMatch(f: Foreign, d: Deserializer)
    requires NotAt(d, QUOTE)
    ensures RawStringParser(f)(d) == (d, "", COK(false))
  {
    ChainHeadInvalid(BK(), [ByteParser(QUOTE)], d);
    ChainHeadInvalid(CK(), [OpenQuote(), ScanParser()], d);
  }

  lemma StringNoMatch(f: Foreign, d: Deserializer)
    requires NotAt(d, QUOTE)
    ensures StringParser(f)(d) == (d, ZeroOutput, COK(false))
  {
    RawStringNoMatch(f, d);
  }

  /** compositeParser declines, consuming nothing, when its start delimiter is not there. */
  lemma CompositeNoMatch<V>(c: byte, end: Parser<Deserializer, Empty, BoolResult>, sep: Parser<Deserializer, Empty, BoolResult>,
                            elem: Parser<Deserializer, V, CR>, d: Deserializer)
    requires NotAt(d, c)
    ensures Composite(Discard(BK(), ByteParser(c)), end, sep, elem)(d) == (d, [], COK(false))
  {
    ChainHeadInvalid(BK(), [Discard(BK(), ByteParser(c))], d);
  }

  lemma ArrayNoMatch(f: Foreign, depth: nat, d: Deserializer)
    requires NotAt(d, '[' as byte)
    ensures ArrayParser(f, depth)(d) == (d, ZeroOutput, COK(false))
  {
    CompositeNoMatch('[' as byte, Discard(BK(), TrimSpace(ByteParser(']' as byte))),
      Discard(BK(), TrimSpace(ByteParser(',' as byte))), NestedC(f, depth), d);
  }

  lemma ObjectNoMatch(f: Foreign, depth: nat, d: Deserializer)
    requires NotAt(d, '{' as byte)
    ensures ObjectParser(f, depth)(d) == (d, ZeroOutput, COK(false))
  {
    CompositeNoMatch('{' as byte, Discard(BK(), TrimSpace(ByteParser('}' as byte))),
      Discard(BK(), TrimSpace(ByteParser(',' as byte))), TrimSpace(ElemParser(f, depth)), d);
  }

  /** At a byte that is not white space (or at the end), skipping white space does nothing. */
  lemma SkipSpaceStops(d: Deserializer)
    requires d.idx >= |d.b| || !IsSpace(d.b[d.idx])
    ensures SkipSpace(d) == d
  {
  }

  /** At a byte that cannot start a value (or at the end), each of the six value parsers declines without consuming. */
  lemma AlternativeNoMatch(f: Foreign, depth: nat, j: nat, e: Deserializer)
    requires j < 6
    requires e.idx <= |e.b| && (e.idx >= |e.b| || !StartsValue(e.b[e.idx]))
    ensures Alternative(f, depth, j)(e) == (e, ZeroOutput, COK(false))
  {
    if j == 0 {
      NullNoMatch(e);
    } else if j == 1 {
      BoolNoMatch(e);
    } else if j == 2 {
      NumberNoMatch(f, e);
    } else if j == 3 {
      StringNoMatch(f, e);
    } else if j == 4 {
      ArrayNoMatch(f, depth, e);
    } else {
      ObjectNoMatch(f, depth, e);
    }
  }

  /** Skipping white space keeps the input and stays within it. */
  lemma SkipSpaceKeepsInput(d: Deserializer)
    requires d.idx <= |d.b|
    ensures SkipSpace(d).b == d.b && d.idx <= SkipSpace(d).idx <= |d.b|
  {
    SkipSpaceSpec(d);
  }

  /** When no value starts after the white space, jsonParserC declines at the first byte after it. */
  lemma JsonCNoValue(f: Foreign, depth: nat, d: Deserializer)
    requires d.idx <= |d.b|
    requires var e := SkipSpace(d); e.idx >= |e.b| || !StartsValue(e.b[e.idx])
    ensures JsonC(f, depth)(d) == (SkipSpace(d), ZeroOutput, COK(false))
  {
    SkipSpaceSpec(d);
    var e := SkipSpace(d);
    var alts := Alternatives(f, depth);
    forall j | 0 <= j < |alts| ensures !Decisive(alts[j](e).2) {
      AlternativeNoMatch(f, depth, j, e);
      assert alts[j] == Alternative(f, depth, j);
    }
    TryCNoMatch(alts, e, ZeroOutput);
    assert JsonC(f, depth)(d) == TryC(alts, ZeroOutput)(e);
  }

  /** ... and jsonParserE reports errNoMatch there. */
  lemma JsonENoValue(f: Foreign, depth: nat, d: Deserializer)
    requires d.idx <= |d.b|
    requires var e := SkipSpace(d); e.idx >= |e.b| || !StartsValue(e.b[e.idx])
    ensures JsonE(f, depth)(d) == (SkipSpace(d), ZeroOutput, Err(Some(ErrNoMatch(SkipSpace(d)))))
  {
    SkipSpaceSpec(d);
    SkipSpaceStops(SkipSpace(d));
    JsonCNoValue(f, depth, SkipSpace(d));
  }

  /** Input that holds no value after its leading white space fails with errNoMatch at that point. */
  lemma DeserializeNoValue(f: Foreign, b: seq<byte>)
    requires var e := SkipSpace(Start(b)); e.idx >= |b| || !StartsValue(b[e.idx])
    ensures Deserialize(f, b) == Failure(ErrNoMatch(SkipSpace(Start(b))))
  {
    SkipSpaceKeepsInput(Start(b));
    JsonENoValue(f, |b| + 1, Start(b));
    assert DeserializeOutput(f, b) == Failure(ErrNoMatch(SkipSpace(Start(b))));
  }

  /** Empty or all-white-space input fails with ErrUnexpectedEndOfInput. */
  lemma BlankInputFails(f: Foreign, b: seq<byte>)
    requires forall i :: 0 <= i < |b| ==> IsSpace(b[i])
    ensures Deserialize(f, b) == Failure(UnexpectedEndOfInput)
  {
    SkipSpaceSpec(Start(b));
    DeserializeNoValue(f, b);
  }

  /**
   * A first non-space byte that cannot start a value fails with InvalidTokenError carrying
   * that byte and its row (one more than the newlines before it) and column.
   */
  lemma StrayByteFails(f: Foreign, b: seq<byte>)
    requires var e := SkipSpace(Start(b)); e.idx < |b| && !StartsValue(b[e.idx])
    ensures var i := SkipSpace(Start(b)).idx;
      Deserialize(f, b) == Failure(InvalidToken(b[i], 1 + multiset(b[..i])[NL], 1 + i - LineStart(b[..i])))
  {
    SkipSpaceSpec(Start(b));
    SkipSpacePlaced(Start(b));
    DeserializeNoValue(f, b);
  }
}
