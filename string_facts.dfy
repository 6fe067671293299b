/**
 * What rawStringParser of deserialize.go reads: from the opening quote through the first
 * quote that no backslash escapes, both quotes included, and then hands that span to
 * strconv.Unquote.
 */
module StringFacts {
  import opened Wrappers
  import opened FuncParser
  import opened GenJson
  import opened Cursor
  import opened Grammar

  /** The two parts of rawStringParser chained: the opening quote, then the scanner's outcome. */
  lemma StringChain(d: Deserializer)
    requires d.idx < |d.b| && d.b[d.idx] == QUOTE
    ensures var e := Read(d).0; var sc := Scan(e, false, []);
      ChainP(CK(), [OpenQuote(), ScanParser()])(d) ==
        if sc.2.Valid() then (sc.0, [[QUOTE], sc.1], COK(true)) else (d, [], sc.2)
  {
    var e := Read(d).0;
    ChainOne(BK(), ByteParser(QUOTE), d);
    assert OpenQuote()(d) == (e, [QUOTE], COK(true));
    assert ScanParser()(e) == Scan(e, false, []);
    ChainTwo(CK(), OpenQuote(), ScanParser(), d);
  }

  /** FlattenP over the two parts: the quote before the scanned bytes, or the scanner's failure. */
  lemma StringFlatten(d: Deserializer)
    requires d.idx < |d.b| && d.b[d.idx] == QUOTE
    ensures var e := Read(d).0; var sc := Scan(e, false, []);
      FlattenP(CK(), [OpenQuote(), ScanParser()])(d) ==
        if sc.2.Valid() then (sc.0, Concat([[QUOTE], sc.1]), COK(true)) else (d, [], sc.2)
  {
    StringChain(d);
    MapAt(CK(), ChainP(CK(), [OpenQuote(), ScanParser()]), Concat, [], d);
  }

  /**
   * The span the two parts of rawStringParser gather: the opening quote, then the bytes
   * through the first unescaped quote after it; or ErrUnmatchedQuote when there is none.
   */
  lemma StringPartsMatch(d: Deserializer, e: Deserializer)
    requires d.idx < |d.b| && d.b[d.idx] == QUOTE && e == Read(d).0
    ensures FirstStop(false, e.b[e.idx..]).None? ==>
      FlattenP(CK(), [OpenQuote(), ScanParser()])(d) == (d, [], CErr(UnmatchedQuote))
    ensures FirstStop(false, e.b[e.idx..]).Some? ==>
      var j := FirstStop(false, e.b[e.idx..]).value;
      FlattenP(CK(), [OpenQuote(), ScanParser()])(d) == (Advance(e, j + 1), [QUOTE] + e.b[e.idx..e.idx + j + 1], COK(true))
  {
    var sc := Scan(e, false, []);
    ScanFrom(e);
    StringFlatten(d);
    ConcatTwo([QUOTE], sc.1);
  }

  /** The scanner from the cursor after the opening quote. */
  lemma ScanFrom(e: Deserializer)
    requires e.idx <= |e.b|
    ensures var sc := Scan(e, false, []); var stop := FirstStop(false, e.b[e.idx..]);
      && (stop.None? ==> sc.2 == CErr(UnmatchedQuote))
      && (stop.Some? ==> sc == (Advance(e, stop.value + 1), e.b[e.idx..e.idx + stop.value + 1], COK(true)))
  {
    ScanFindsFirstStop(e, false, []);
    match FirstStop(false, e.b[e.idx..]) {
      case Some(j) =>
        assert [] + e.b[e.idx..e.idx + j + 1] == e.b[e.idx..e.idx + j + 1];
      case None =>
    }
  }

  /**
   * rawStringParser at an opening quote, with e the cursor after it: without a closing
   * quote the input ends first and the result is ErrUnmatchedQuote; otherwise the span from
   * the opening quote through the first unescaped quote goes to Unquote, whose failure is an
   * error that leaves the cursor where it was.
   */
  lemma RawStringSpec(f: Foreign, d: Deserializer, e: Deserializer)
    requires d.idx < |d.b| && d.b[d.idx] == QUOTE && e == Read(d).0
    ensures FirstStop(false, e.b[e.idx..]).None? ==> RawStringParser(f)(d) == (d, "", CErr(UnmatchedQuote))
    ensures FirstStop(false, e.b[e.idx..]).Some? ==>
      var j := FirstStop(false, e.b[e.idx..]).value;
      var text := [QUOTE] + e.b[e.idx..e.idx + j + 1];
      RawStringParser(f)(d) ==
        match f.unquote(text)
        case Some(str) => (Advance(e, j + 1), str, COK(true))
        case None => (d, "", CErr(UnquoteError(text)))
  {
    StringPartsMatch(d, e);
  }
}
