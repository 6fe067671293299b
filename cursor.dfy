/**
 * The immutable input cursor of deserialize.go and the lexical parsers built directly on it:
 * `read`, `byteParser`, `predicateParser`/`digitsParser`, `trimSpaceParser`, the string
 * scanner of `rawStringParser`, the decimal conversion behind `intParser`, and `errNoMatch`.
 */
module Cursor {
  import opened Wrappers
  import opened FuncParser
  import opened GenJson

  const NL: byte := '\n' as byte
  const QUOTE: byte := '"' as byte
  const BACKSLASH: byte := '\\' as byte

  /** deserializer: the input, the index of the next byte, and that byte's 1-based row and column. */
  datatype Deserializer = Deserializer(b: seq<byte>, idx: nat, row: int, col: int)

  /** Errors the grammar reports. */
  datatype Error =
    | UnmatchedQuote
    | UnexpectedEndOfInput
    | InvalidToken(token: byte, row: int, col: int)
      /** strconv.ParseUint's *NumError: ErrSyntax or ErrRange, with the text. */
    | UintSyntax(text: seq<byte>)
    | UintRange(text: seq<byte>)
      /** The error of the float conversion, which is foreign code. */
    | FloatError(text: seq<byte>)
      /** strconv.Unquote's ErrSyntax. */
    | UnquoteError(text: seq<byte>)
      /** Nesting deeper than the depth bound the model is given (see Grammar.Deserialize). */
    | TooDeep
      /** A list iteration that consumed nothing, on which the Go loop would spin forever. */
    | NoProgress

  /** The cursor `deserialize` starts from. */
  function Start(b: seq<byte>): (d: Deserializer)
    ensures Placed(d) && d.idx == 0 && d.b == b
  {
    Deserializer(b, 0, 1, 1)
  }

  /** read: consume one byte, moving to the next row after a newline and to the next column otherwise. */
  function Read(d: Deserializer): (r: (Deserializer, byte, BoolResult))
    ensures r.0.b == d.b
    ensures d.idx >= |d.b| ==> r == (d, 0, OK(false))
    ensures d.idx < |d.b| ==> r.0.idx == d.idx + 1 && r.1 == d.b[d.idx] && r.2 == OK(true)
    ensures d.idx < |d.b| ==>
      if d.b[d.idx] == NL then r.0.row == d.row + 1 && r.0.col == 1 else r.0.row == d.row && r.0.col == d.col + 1
  {
    if d.idx < |d.b| then
      var x := d.b[d.idx];
      var row := if x == NL then d.row + 1 else d.row;
      var col := if x == NL then 1 else d.col + 1;
      (Deserializer(d.b, d.idx + 1, row, col), x, OK(true))
    else (d, 0, OK(false))
  }

  // ---------------------------------------------------------------- row and column

  /** The index where the line containing the end of s starts. */
  function LineStart(s: seq<byte>): (n: nat)
    ensures n <= |s|
  {
    if s == [] then 0
    else if s[|s| - 1] == NL then |s|
    else LineStart(s[..|s| - 1])
  }

  /** No newline lies between the line start and the end, and the line start follows a newline or is 0. */
  lemma {:induction false} LineStartIsAfterLastNewline(s: seq<byte>)
    ensures forall i :: LineStart(s) <= i < |s| ==> s[i] != NL
    ensures LineStart(s) == 0 || s[LineStart(s) - 1] == NL
  {
    if s != [] && s[|s| - 1] != NL {
      LineStartIsAfterLastNewline(s[..|s| - 1]);
    }
  }

  /** The cursor's row is one more than the newlines before it, its column one more than the bytes since the last. */
  ghost predicate Placed(d: Deserializer)
  {
    && d.idx <= |d.b|
    && d.row == 1 + multiset(d.b[..d.idx])[NL]
    && d.col == 1 + d.idx - LineStart(d.b[..d.idx])
  }

  /** read keeps the row and column in step with the bytes consumed. */
  lemma ReadPlaced(d: Deserializer)
    requires Placed(d)
    ensures Placed(Read(d).0)
  {
    if d.idx < |d.b| {
      assert d.b[..d.idx + 1] == d.b[..d.idx] + [d.b[d.idx]];
      assert d.b[..d.idx + 1][..d.idx] == d.b[..d.idx];
    }
  }

  /** The cursor after n reads. */
  function Advance(d: Deserializer, n: nat): Deserializer
    decreases n
  {
    if n == 0 then d else Advance(Read(d).0, n - 1)
  }

  lemma {:induction false} AdvanceIdx(d: Deserializer, n: nat)
    requires d.idx + n <= |d.b|
    ensures Advance(d, n).b == d.b && Advance(d, n).idx == d.idx + n
    decreases n
  {
    if n > 0 {
      AdvanceIdx(Read(d).0, n - 1);
    }
  }

  // ---------------------------------------------------------------- byteParser

  /** byteParser: consume exactly the byte c, or match nothing and leave the cursor where it was. */
  function ByteParser(c: byte): (q: Parser<Deserializer, byte, BoolResult>)
    ensures forall d :: q(d).2.Valid() <==> d.idx < |d.b| && d.b[d.idx] == c
    ensures forall d :: q(d).2.Valid() ==> q(d) == (Read(d).0, c, OK(true))
    ensures forall d :: !q(d).2.Valid() ==> q(d) == (d, 0, OK(false))
  {
    d =>
      var (d2, x, br) := Read(d);
      if br.OK && x == c then (d2, c, OK(true)) else (d, 0, OK(false))
  }

  // ---------------------------------------------------------------- predicateParser

  /** The maximal run of bytes satisfying pred at the cursor, and the cursor after it. */
  function Run(d: Deserializer, pred: byte -> bool): (r: (Deserializer, seq<byte>))
    decreases |d.b| - d.idx
  {
    var next := Read(d);
    if next.2.OK && pred(next.1) then
      var rest := Run(next.0, pred);
      (rest.0, [next.1] + rest.1)
    else (d, [])
  }

  /**
   * The run is exactly the bytes between the two cursors, all of them satisfy pred, and the
   * byte after it (if any) does not: the run is maximal. An empty run leaves the cursor alone.
   */
  lemma {:induction false} RunIsMaximal(d: Deserializer, pred: byte -> bool)
    requires d.idx <= |d.b|
    ensures var r := Run(d, pred);
      && r.0.b == d.b && d.idx <= r.0.idx <= |d.b|
      && r.1 == d.b[d.idx..r.0.idx]
      && (forall i :: 0 <= i < |r.1| ==> pred(r.1[i]))
      && (r.0.idx == |d.b| || !pred(d.b[r.0.idx]))
      && (r.1 == [] ==> r.0 == d)
      && r.0 == Advance(d, |r.1|)
    decreases |d.b| - d.idx
  {
    var next := Read(d);
    if next.2.OK && pred(next.1) {
      RunIsMaximal(next.0, pred);
      var rest := Run(next.0, pred);
      assert next.0.idx == d.idx + 1 && next.1 == d.b[d.idx];
      assert d.b[d.idx..rest.0.idx] == [d.b[d.idx]] + d.b[d.idx + 1..rest.0.idx];
      assert Advance(d, 1 + |rest.1|) == Advance(next.0, |rest.1|);
    }
  }

  /** One application of predicateParser. */
  function Predicate(d: Deserializer, pred: byte -> bool): (Deserializer, seq<byte>, BoolResult)
  {
    var run := Run(d, pred);
    (run.0, run.1, OK(|run.1| > 0))
  }

  /** predicateParser: the maximal run; it matches iff the run is not empty. */
  function PredicateParser(pred: byte -> bool): Parser<Deserializer, seq<byte>, BoolResult>
  {
    d => Predicate(d, pred)
  }

  /** The loop of predicateParser, appending one accepted byte at a time. */
  method PredicateLoop(d0: Deserializer, pred: byte -> bool) returns (d: Deserializer, buf: seq<byte>, r: BoolResult)
    ensures (d, buf, r) == PredicateParser(pred)(d0)
  {
    d, buf := d0, [];
    assert [] + Run(d0, pred).1 == Run(d0, pred).1;
    while true
      invariant Run(d0, pred) == (Run(d, pred).0, buf + Run(d, pred).1)
      invariant buf == [] ==> d == d0
      decreases |d.b| - d.idx
    {
      var next := Read(d);
      if next.2.OK && pred(next.1) {
        RunStep(d, pred);
        assert buf + Run(d, pred).1 == (buf + [next.1]) + Run(next.0, pred).1;
        buf := buf + [next.1];
        d := next.0;
      } else {
        assert Run(d, pred) == (d, []);
        assert buf + [] == buf;
        return d, buf, OK(|buf| > 0);
      }
    }
  }

  lemma RunStep(d: Deserializer, pred: byte -> bool)
    requires Read(d).2.OK && pred(Read(d).1)
    ensures Run(d, pred) == (Run(Read(d).0, pred).0, [Read(d).1] + Run(Read(d).0, pred).1)
  {
  }

  predicate IsDigit(x: byte)
  {
    '0' as byte <= x <= '9' as byte
  }

  /** digitsParser: the maximal run of decimal digits, matching iff it is not empty. */
  function DigitsParser(): Parser<Deserializer, seq<byte>, BoolResult>
  {
    PredicateParser(IsDigit)
  }

  /**
   * predicateParser consumes the maximal run of accepted bytes and matches iff the first byte
   * is accepted; on no match it leaves the cursor where it was.
   */
  lemma PredicateParserSpec(d: Deserializer, pred: byte -> bool)
    requires d.idx <= |d.b|
    ensures var p := PredicateParser(pred)(d);
      && p.0.b == d.b && d.idx <= p.0.idx <= |d.b|
      && p.2.Valid() == (d.idx < |d.b| && pred(d.b[d.idx]))
      && p.1 == d.b[d.idx..p.0.idx]
      && (forall i :: 0 <= i < |p.1| ==> pred(p.1[i]))
      && (p.0.idx == |d.b| || !pred(d.b[p.0.idx]))
      && (!p.2.Valid() ==> p.0 == d)
  {
    RunIsMaximal(d, pred);
    var run := Run(d, pred);
    if d.idx < |d.b| && pred(d.b[d.idx]) {
      RunStep(d, pred);
    } else {
      assert run.1 == [];
    }
  }

  // ---------------------------------------------------------------- trimSpaceParser

  /** unicode.IsSpace on a byte widened to a rune: \t \n \v \f \r, space, U+0085 and U+00A0. */
  predicate IsSpace(x: byte)
  {
    x == 0x09 || x == 0x0A || x == 0x0B || x == 0x0C || x == 0x0D || x == 0x20 || x == 0x85 || x == 0xA0
  }

  /** The cursor after the leading white space. */
  function SkipSpace(d: Deserializer): (e: Deserializer)
    decreases |d.b| - d.idx
  {
    var (d2, x, br) := Read(d);
    if !br.OK || !IsSpace(x) then d else SkipSpace(d2)
  }

  /** SkipSpace consumes exactly the leading space bytes and stops at the first other byte or the end. */
  lemma {:induction false} SkipSpaceSpec(d: Deserializer)
    requires d.idx <= |d.b|
    ensures var e := SkipSpace(d);
      && e.b == d.b && d.idx <= e.idx <= |d.b|
      && (forall i :: d.idx <= i < e.idx ==> IsSpace(d.b[i]))
      && (e.idx == |d.b| || !IsSpace(d.b[e.idx]))
      && e == Advance(d, e.idx - d.idx)
    decreases |d.b| - d.idx
  {
    var (d2, x, br) := Read(d);
    if br.OK && IsSpace(x) {
      SkipSpaceSpec(d2);
    }
  }

  /** SkipSpace keeps row and column in step. */
  lemma {:induction false} SkipSpacePlaced(d: Deserializer)
    requires Placed(d)
    ensures Placed(SkipSpace(d))
    decreases |d.b| - d.idx
  {
    ReadPlaced(d);
    var (d2, x, br) := Read(d);
    if br.OK && IsSpace(x) {
      SkipSpacePlaced(d2);
    }
  }

  /** trimSpaceParser: skip white space, then delegate. */
  function TrimSpace<V, R>(p: Parser<Deserializer, V, R>): (q: Parser<Deserializer, V, R>)
    ensures forall d :: q(d) == p(SkipSpace(d))
  {
    d => p(SkipSpace(d))
  }

  /** The loop of trimSpaceParser. */
  method SkipSpaceLoop(d0: Deserializer) returns (d: Deserializer)
    ensures d == SkipSpace(d0)
  {
    d := d0;
    while true
      invariant SkipSpace(d) == SkipSpace(d0)
      decreases |d.b| - d.idx
    {
      var (d2, x, br) := Read(d);
      if !br.OK {
        break;
      }
      if !IsSpace(x) {
        break;
      }
      d := d2;
    }
  }

  // ---------------------------------------------------------------- the string scanner

  /** One byte of the scanner's escape state: a backslash outside an escape starts one. */
  function Step(inEscape: bool, x: byte): bool
  {
    if inEscape then false else x == BACKSLASH
  }

  /** The escape state after scanning s from state e0. */
  function EscapeAfter(e0: bool, s: seq<byte>): bool
    decreases |s|
  {
    if s == [] then e0 else EscapeAfter(Step(e0, s[0]), s[1..])
  }

  /** The position of the first quote that is not escaped, if any. */
  function FirstStop(e0: bool, s: seq<byte>): (r: Option<nat>)
    ensures r.Some? ==> r.value < |s|
    decreases |s|
  {
    if s == [] then None
    else if !e0 && s[0] == QUOTE then Some(0)
    else match FirstStop(Step(e0, s[0]), s[1..])
      case Some(j) => Some(j + 1)
      case None => None
  }

  /** The loop of the scanner, from cursor d, escape state inEscape and bytes buf so far. */
  function Scan(d: Deserializer, inEscape: bool, buf: seq<byte>): (Deserializer, seq<byte>, CombineResult<Error>)
    decreases |d.b| - d.idx
  {
    var next := Read(d);
    var x := next.1;
    if !next.2.OK then (next.0, [], CErr(UnmatchedQuote))
    else if inEscape then Scan(next.0, false, buf + [x])
    else if x == BACKSLASH then Scan(next.0, true, buf + [x])
    else if x == QUOTE then (next.0, buf + [x], COK(true))
    else Scan(next.0, false, buf + [x])
  }

  /** The scanner as a parser: it starts after the opening quote, outside an escape. */
  function ScanParser(): Parser<Deserializer, seq<byte>, CombineResult<Error>>
  {
    d => Scan(d, false, [])
  }

  /** The bytes and cursor after one read followed by j + 1 more are those of j + 2 reads. */
  lemma ScanStepBytes(d: Deserializer, buf: seq<byte>, j: nat)
    requires d.idx + j + 2 <= |d.b|
    ensures var d2, x := Read(d).0, Read(d).1;
      && (buf + [x]) + d2.b[d2.idx..d2.idx + j + 1] == buf + d.b[d.idx..d.idx + j + 2]
      && Advance(d, j + 2) == Advance(d2, j + 1)
  {
    var d2, x := Read(d).0, Read(d).1;
    assert d.b[d.idx..d.idx + j + 2] == [x] + d2.b[d2.idx..d2.idx + j + 1];
  }

  /** What Scan returns from d: up to and including the first unescaped quote, or an unmatched quote. */
  predicate ScanMeetsStop(d: Deserializer, e0: bool, buf: seq<byte>)
    requires d.idx <= |d.b|
  {
    Scan(d, e0, buf) ==
      match FirstStop(e0, d.b[d.idx..])
      case Some(j) => (Advance(d, j + 1), buf + d.b[d.idx..d.idx + j + 1], COK(true))
      case None => (Advance(d, |d.b| - d.idx), [], CErr(UnmatchedQuote))
  }

  lemma ScanAtQuote(d: Deserializer, e0: bool, buf: seq<byte>)
    requires d.idx < |d.b| && !e0 && d.b[d.idx] == QUOTE
    ensures ScanMeetsStop(d, e0, buf)
  {
    var s := d.b[d.idx..];
    assert s[0] == QUOTE && FirstStop(e0, s) == Some(0);
    assert d.b[d.idx..d.idx + 1] == [QUOTE];
    assert Advance(d, 1) == Read(d).0;
  }

  lemma ScanAtEnd(d: Deserializer, e0: bool, buf: seq<byte>)
    requires d.idx == |d.b|
    ensures ScanMeetsStop(d, e0, buf)
  {
    assert d.b[d.idx..] == [];
  }

  /** Past a byte that is not a stopping quote, Scan goes on from the next cursor. */
  lemma ScanPastByte(d: Deserializer, e0: bool, buf: seq<byte>)
    requires d.idx < |d.b| && !(!e0 && d.b[d.idx] == QUOTE)
    requires ScanMeetsStop(Read(d).0, Step(e0, d.b[d.idx]), buf + [d.b[d.idx]])
    ensures ScanMeetsStop(d, e0, buf)
  {
    var s := d.b[d.idx..];
    var d2, x := Read(d).0, Read(d).1;
    var r := Scan(d2, Step(e0, x), buf + [x]);
    assert Scan(d, e0, buf) == r;
    assert s[0] == x && d2.b[d2.idx..] == s[1..];
    match FirstStop(Step(e0, x), s[1..]) {
      case Some(j) =>
        assert r == (Advance(d2, j + 1), (buf + [x]) + d2.b[d2.idx..d2.idx + j + 1], COK(true));
        ScanStepBytes(d, buf, j);
        assert FirstStop(e0, s) == Some(j + 1);
        assert Scan(d, e0, buf) == (Advance(d, j + 2), buf + d.b[d.idx..d.idx + j + 2], COK(true));
      case None =>
        assert r == (Advance(d2, |d2.b| - d2.idx), [], CErr(UnmatchedQuote));
        assert FirstStop(e0, s) == None;
        assert Advance(d, |d.b| - d.idx) == Advance(d2, |d2.b| - d2.idx);
    }
  }

  /** The scanner stops right after the first unescaped quote, or reports an unmatched quote at the end of input. */
  lemma {:induction false} ScanFindsFirstStop(d: Deserializer, e0: bool, buf: seq<byte>)
    requires d.idx <= |d.b|
    ensures Scan(d, e0, buf) ==
      match FirstStop(e0, d.b[d.idx..])
      case Some(j) => (Advance(d, j + 1), buf + d.b[d.idx..d.idx + j + 1], COK(true))
      case None => (Advance(d, |d.b| - d.idx), [], CErr(UnmatchedQuote))
    decreases |d.b| - d.idx
  {
    if d.idx == |d.b| {
      ScanAtEnd(d, e0, buf);
    } else if !e0 && d.b[d.idx] == QUOTE {
      ScanAtQuote(d, e0, buf);
    } else {
      ScanFindsFirstStop(Read(d).0, Step(e0, d.b[d.idx]), buf + [d.b[d.idx]]);
      ScanPastByte(d, e0, buf);
    }
  }

  /** FirstStop finds the least position holding a quote that is not escaped, and nothing iff there is none. */
  lemma {:induction false} FirstStopIsLeast(e0: bool, s: seq<byte>)
    ensures FirstStop(e0, s).Some? ==>
      var j := FirstStop(e0, s).value;
      && j < |s| && s[j] == QUOTE && !EscapeAfter(e0, s[..j])
      && forall i :: 0 <= i < j ==> !(s[i] == QUOTE && !EscapeAfter(e0, s[..i]))
    ensures FirstStop(e0, s).None? ==> forall i :: 0 <= i < |s| ==> !(s[i] == QUOTE && !EscapeAfter(e0, s[..i]))
    decreases |s|
  {
    if s != [] {
      FirstStopIsLeast(Step(e0, s[0]), s[1..]);
      forall i | 0 < i <= |s| ensures EscapeAfter(e0, s[..i]) == EscapeAfter(Step(e0, s[0]), s[1..][..i - 1]) {
        assert s[..i][1..] == s[1..][..i - 1];
      }
      assert s[..0] == [];
    }
  }

  lemma {:induction false} EscapeAfterSnoc(e0: bool, s: seq<byte>, x: byte)
    ensures EscapeAfter(e0, s + [x]) == Step(EscapeAfter(e0, s), x)
    decreases |s|
  {
    if s != [] {
      assert (s + [x])[1..] == s[1..] + [x];
      EscapeAfterSnoc(Step(e0, s[0]), s[1..], x);
    }
  }

  /** The number of backslashes that end s. */
  function TrailingBackslashes(s: seq<byte>): nat
  {
    if s == [] || s[|s| - 1] != BACKSLASH then 0 else TrailingBackslashes(s[..|s| - 1]) + 1
  }

  /** After s the scanner is inside an escape iff s ends in an odd run of backslashes. */
  lemma {:induction false} EscapeIffOddBackslashes(s: seq<byte>)
    ensures EscapeAfter(false, s) <==> TrailingBackslashes(s) % 2 == 1
  {
    if s != [] {
      var s', x := s[..|s| - 1], s[|s| - 1];
      assert s == s' + [x];
      EscapeAfterSnoc(false, s', x);
      EscapeIffOddBackslashes(s');
    }
  }

  /** Hence the byte right after an unescaped backslash is never the closing quote. */
  lemma AfterBackslashNeverStops(s: seq<byte>, i: nat)
    requires i + 1 < |s| && s[i] == BACKSLASH && !EscapeAfter(false, s[..i])
    ensures EscapeAfter(false, s[..i + 1])
  {
    assert s[..i + 1] == s[..i] + [s[i]];
    EscapeAfterSnoc(false, s[..i], s[i]);
  }

  /** The loop of the scanner in rawStringParser. */
  method ScanLoop(d0: Deserializer) returns (d: Deserializer, buf: seq<byte>, r: CombineResult<Error>)
    ensures (d, buf, r) == ScanParser()(d0)
  {
    d, buf := d0, [];
    var inEscape := false;
    while true
      invariant Scan(d, inEscape, buf) == Scan(d0, false, [])
      decreases |d.b| - d.idx
    {
      var (d2, x, br) := Read(d);
      if !br.OK {
        return d2, [], CErr(UnmatchedQuote);
      }
      buf := buf + [x];
      d := d2;
      if inEscape {
        inEscape := false;
        continue;
      }
      if x == BACKSLASH {
        inEscape := true;
      } else if x == QUOTE {
        return d, buf, COK(true);
      }
    }
  }

  // ---------------------------------------------------------------- decimal conversion

  const TWO64: int := 0x1_0000_0000_0000_0000

  /** The value of a decimal digit string. */
  function DecimalValue(s: seq<byte>): nat
    requires forall i :: 0 <= i < |s| ==> IsDigit(s[i])
  {
    if s == [] then 0
    else
      assert IsDigit(s[|s| - 1]);
      DecimalValue(s[..|s| - 1]) * 10 + (s[|s| - 1] as int - '0' as int)
  }

  function Pow10(n: nat): nat
  {
    if n == 0 then 1 else 10 * Pow10(n - 1)
  }

  /** A digit string of length n is below 10^n. */
  lemma {:induction false} DecimalValueBelow(s: seq<byte>)
    requires forall i :: 0 <= i < |s| ==> IsDigit(s[i])
    ensures DecimalValue(s) < Pow10(|s|)
  {
    if s != [] {
      DecimalValueBelow(s[..|s| - 1]);
    }
  }

  /** Leading zeros do not change the value: "0123" is 123. */
  lemma {:induction false} LeadingZeroIgnored(s: seq<byte>)
    requires forall i :: 0 <= i < |s| ==> IsDigit(s[i])
    ensures DecimalValue(['0' as byte] + s) == DecimalValue(s)
  {
    if s != [] {
      var s' := s[..|s| - 1];
      assert (['0' as byte] + s)[..|s|] == ['0' as byte] + s';
      LeadingZeroIgnored(s');
    } else {
      assert (['0' as byte])[..0] == [];
    }
  }

  /**
   * strconv.ParseUint(s, 10, 64): a syntax error for an empty or non-digit string, a range
   * error from 2^64 on, else the value.
   */
  function ParseUint(s: seq<byte>): (r: Result<uint64, Error>)
    ensures r.Success? <==> |s| > 0 && (forall i :: 0 <= i < |s| ==> IsDigit(s[i])) && DecimalValue(s) < TWO64
    ensures r.Success? ==> r.value as int == DecimalValue(s)
  {
    if |s| == 0 || exists i :: 0 <= i < |s| && !IsDigit(s[i]) then Failure(UintSyntax(s))
    else if DecimalValue(s) >= TWO64 then Failure(UintRange(s))
    else Success(DecimalValue(s) as uint64)
  }

  // ---------------------------------------------------------------- errNoMatch

  /** errNoMatch: end of input at the end, otherwise the offending byte and where it is. */
  function ErrNoMatch(d: Deserializer): (e: Error)
    ensures e == UnexpectedEndOfInput <==> d.idx >= |d.b|
    ensures d.idx < |d.b| ==> e == InvalidToken(d.b[d.idx], d.row, d.col)
  {
    var (_, x, br) := Read(d);
    if !br.OK then UnexpectedEndOfInput else InvalidToken(x, d.row, d.col)
  }
}
