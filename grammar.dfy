/**
 * The JSON grammar of deserialize.go, assembled from the combinators over the cursor:
 * `surroundParser`, `listParser`/`compositeParser`, `locParser`, the value parsers and
 * `jsonParserC`/`jsonParserE`, and `deserialize`.
 *
 * The grammar is a dialect of RFC 8259: numbers may have leading zeros and no exponent, and a
 * float is digits '.' digits; white space is whatever `unicode.IsSpace` accepts; string
 * escapes are decoded by Go's `strconv.Unquote`; bytes after the first value are not looked at.
 */
module Grammar {
  import opened Wrappers
  import opened FuncParser
  import opened GenJson
  import opened Cursor
  import OrderedMap

  type CR = CombineResult<Error>

  /** Foreign conversions the grammar calls: strconv.ParseFloat(s, 64) and strconv.Unquote. */
  datatype Foreign = Foreign(parseFloat: seq<byte> -> Option<Float64>, unquote: seq<byte> -> Option<string>)

  datatype Loc = Loc(Row: int, Col: int)

  /** Location and order information about the parsed JSON, kept beside the value. */
  datatype Node = Node(objectNodes: seq<NodeKeyValue>, arrayNodes: seq<Node>, start: Loc, end: Loc)

  /** The node of an object member; the parser fills in the key's span but leaves `key` empty. */
  datatype NodeKeyValue = NodeKeyValue(key: string, keyStart: Loc, keyEnd: Loc, node: Node)

  datatype Output = Output(value: Value, node: Node)

  datatype LocV<V> = LocV(start: Loc, end: Loc, v: V)

  datatype KeyValue = KeyValue(key: LocV<string>, value: Output)

  const ZeroLoc := Loc(0, 0)
  const ZeroNode := Node([], [], ZeroLoc, ZeroLoc)
  /** Go's zero output holds a nil Value; the model puts null there. It is never returned as a success. */
  const ZeroOutput := Output(NullValue, ZeroNode)
  const ZeroNumber := Number(0, 0, false, false)
  const ZeroKeyValue := KeyValue(LocV(ZeroLoc, ZeroLoc, ""), ZeroOutput)

  function BK(): Kind<BoolResult> { BoolKind() }
  function CK(): Kind<CR> { CombineKind() }
  function EK(): Kind<ErrResult<Error>> { ErrKind() }

  // ---------------------------------------------------------------- locParser

  function LocOf(d: Deserializer): Loc
  {
    Loc(d.row, d.col)
  }

  function LocStep<O, R>(p: Parser<Deserializer, O, R>, d: Deserializer): (Deserializer, LocV<O>, R)
  {
    var r := p(d);
    (r.0, LocV(LocOf(d), LocOf(r.0), r.1), r.2)
  }

  /** locParser: wrap the output with the positions before and after the inner parser. */
  function LocParser<O, R>(p: Parser<Deserializer, O, R>): (q: Parser<Deserializer, LocV<O>, R>)
    ensures forall d :: q(d).0 == p(d).0 && q(d).1.v == p(d).1 && q(d).2 == p(d).2
    ensures forall d :: q(d).1.start == LocOf(d) && q(d).1.end == LocOf(p(d).0)
  {
    d => LocStep(p, d)
  }

  function OutputOf(l: LocV<Value>): Output
  {
    Output(l.v, Node([], [], l.start, l.end))
  }

  /** outputParser: a located value becomes an output whose node holds the span. */
  function OutputParser(p: Parser<Deserializer, Value, CR>): Parser<Deserializer, Output, CR>
  {
    Map(CK(), LocParser(p), OutputOf, ZeroOutput)
  }

  // ---------------------------------------------------------------- surroundParser

  function SurroundStep<V>(before: seq<Parser<Deserializer, Empty, BoolResult>>, p: Parser<Deserializer, V, CR>,
                           after: seq<Parser<Deserializer, Empty, CR>>, zero: V, d: Deserializer): (Deserializer, V, CR)
  {
    var b := ChainP(BK(), before)(d);
    if !b.2.Valid() then (d, zero, COK(b.2.OK))
    else
      var m := p(b.0);
      if !m.2.Valid() then (d, zero, m.2)
      else
        var a := ChainP(CK(), after)(m.0);
        if !a.2.Valid() then (d, zero, a.2)
        else (a.0, m.1, COK(true))
  }

  /**
   * surroundParser(before...)(p)(after...): p between the chained before and after parsers.
   * A failing `before` is a plain no-match; p's or after's failing result is passed on.
   */
  function Surround<V>(before: seq<Parser<Deserializer, Empty, BoolResult>>, p: Parser<Deserializer, V, CR>,
                       after: seq<Parser<Deserializer, Empty, CR>>, zero: V): Parser<Deserializer, V, CR>
  {
    d => SurroundStep(before, p, after, zero, d)
  }

  /** Any failure of surroundParser rewinds to the original cursor with the zero output. */
  lemma SurroundRewinds<V>(before: seq<Parser<Deserializer, Empty, BoolResult>>, p: Parser<Deserializer, V, CR>,
                           after: seq<Parser<Deserializer, Empty, CR>>, zero: V, d: Deserializer)
    ensures var r := Surround(before, p, after, zero)(d);
      !r.2.Valid() ==> r.0 == d && r.1 == zero
    ensures var r := Surround(before, p, after, zero)(d);
      !ChainP(BK(), before)(d).2.Valid() ==> r == (d, zero, COK(false))
  {
  }

  // ---------------------------------------------------------------- listParser

  /**
   * The loop of listParser after the first element: `bb2` is the cursor after the last
   * element and `vs` the elements so far; `d` is where the list began. An iteration that
   * consumed nothing would make the Go loop spin; the model stops it with NoProgress.
   */
  function ListLoop<V>(p: Parser<Deserializer, V, CR>, sep: Parser<Deserializer, Empty, BoolResult>,
                       end: Parser<Deserializer, Empty, BoolResult>, d: Deserializer, bb2: Deserializer, vs: seq<V>)
    : (Deserializer, seq<V>, CR)
    decreases |d.b| - bb2.idx
  {
    var e := end(bb2);
    if e.2.Valid() then (e.0, vs, COK(true))
    else
      var s := sep(bb2);
      if !s.2.Valid() then (d, [], CErr(ErrNoMatch(s.0)))
      else
        var q := p(s.0);
        if q.2.Err.Some? then (d, [], q.2)
        else if !q.2.OK then (d, [], CErr(ErrNoMatch(q.0)))
        else if !(bb2.idx < q.0.idx <= |d.b|) then (d, [], CErr(NoProgress))
        else ListLoop(p, sep, end, d, q.0, vs + [q.1])
  }

  function ListRun<V>(p: Parser<Deserializer, V, CR>, sep: Parser<Deserializer, Empty, BoolResult>,
                      end: Parser<Deserializer, Empty, BoolResult>, d: Deserializer): (Deserializer, seq<V>, CR)
  {
    var e := end(d);
    if e.2.Valid() then (e.0, [], COK(true))
    else
      var q := p(e.0);
      if !q.2.Valid() then (d, [], q.2)
      else if !(d.idx <= q.0.idx <= |d.b|) then (d, [], CErr(NoProgress))
      else ListLoop(p, sep, end, d, q.0, [q.1])
  }

  /**
   * listParser(p, sep, end): an end delimiter straight away is the empty list; otherwise
   * elements separated by sep up to the end delimiter.
   */
  function ListParser<V>(p: Parser<Deserializer, V, CR>, sep: Parser<Deserializer, Empty, BoolResult>,
                         end: Parser<Deserializer, Empty, BoolResult>): Parser<Deserializer, seq<V>, CR>
  {
    d => ListRun(p, sep, end, d)
  }

  /** The loop of listParser, threading the cursor and appending each element. */
  method ListLoopMethod<V>(p: Parser<Deserializer, V, CR>, sep: Parser<Deserializer, Empty, BoolResult>,
                           end: Parser<Deserializer, Empty, BoolResult>, d: Deserializer)
    returns (e: Deserializer, vs: seq<V>, r: CR)
    ensures (e, vs, r) == ListParser(p, sep, end)(d)
  {
    var first := end(d);
    if first.2.Valid() {
      return first.0, [], COK(true);
    }
    var q := p(first.0);
    if !q.2.Valid() {
      return d, [], q.2;
    }
    if !(d.idx <= q.0.idx <= |d.b|) {
      return d, [], CErr(NoProgress);
    }
    vs := [q.1];
    var bb2 := q.0;
    while true
      invariant ListLoop(p, sep, end, d, bb2, vs) == ListRun(p, sep, end, d)
      invariant bb2.idx <= |d.b|
      decreases |d.b| - bb2.idx
    {
      var bb3 := end(bb2);
      if bb3.2.Valid() {
        return bb3.0, vs, COK(true);
      }
      var s := sep(bb2);
      if !s.2.Valid() {
        return d, [], CErr(ErrNoMatch(s.0));
      }
      var v := p(s.0);
      if v.2.Err.Some? {
        return d, [], v.2;
      }
      if !v.2.OK {
        return d, [], CErr(ErrNoMatch(v.0));
      }
      if !(bb2.idx < v.0.idx <= |d.b|) {
        return d, [], CErr(NoProgress);
      }
      vs := vs + [v.1];
      bb2 := v.0;
    }
  }

  /** An end delimiter at the start gives the empty list, at the end delimiter's cursor. */
  lemma ListEmpty<V>(p: Parser<Deserializer, V, CR>, sep: Parser<Deserializer, Empty, BoolResult>,
                     end: Parser<Deserializer, Empty, BoolResult>, d: Deserializer)
    requires end(d).2.Valid()
    ensures ListParser(p, sep, end)(d) == (end(d).0, [], COK(true))
  {
  }

  lemma {:induction false} ListLoopDecides<V>(p: Parser<Deserializer, V, CR>, sep: Parser<Deserializer, Empty, BoolResult>,
                                              end: Parser<Deserializer, Empty, BoolResult>, d: Deserializer, bb2: Deserializer, vs: seq<V>)
    ensures var r := ListLoop(p, sep, end, d, bb2, vs);
      (r.2.Valid() || r.2.Err.Some?) && (!r.2.Valid() ==> r.0 == d && r.1 == [])
    decreases |d.b| - bb2.idx
  {
    var e := end(bb2);
    if !e.2.Valid() {
      var s := sep(bb2);
      if s.2.Valid() {
        var q := p(s.0);
        if q.2.Err.None? && q.2.OK && bb2.idx < q.0.idx <= |d.b| {
          ListLoopDecides(p, sep, end, d, q.0, vs + [q.1]);
        }
      }
    }
  }

  /**
   * Every failure of listParser rewinds to where the list began, and once the first element
   * has matched every failure is an error: a plain no-match can only come from the first
   * element, whose result is passed on unchanged.
   */
  lemma ListFailures<V>(p: Parser<Deserializer, V, CR>, sep: Parser<Deserializer, Empty, BoolResult>,
                        end: Parser<Deserializer, Empty, BoolResult>, d: Deserializer)
    ensures var r := ListParser(p, sep, end)(d);
      !r.2.Valid() ==> r.0 == d && r.1 == []
    ensures var r := ListParser(p, sep, end)(d);
      !r.2.Valid() && r.2.Err.None? ==> !end(d).2.Valid() && r.2 == p(end(d).0).2
  {
    var e := end(d);
    if !e.2.Valid() {
      var q := p(e.0);
      if q.2.Valid() && d.idx <= q.0.idx <= |d.b| {
        ListLoopDecides(p, sep, end, d, q.0, [q.1]);
      }
    }
  }

  /**
   * From any cursor within b, the separator matches only by consuming at least one byte, the
   * element matches only by moving forward within b, and the element never fails with
   * NoProgress itself.
   */
  ghost predicate Advancing<V>(p: Parser<Deserializer, V, CR>, sep: Parser<Deserializer, Empty, BoolResult>, b: seq<byte>)
  {
    && (forall x: Deserializer :: x.b == b && x.idx <= |b| && sep(x).2.Valid() ==>
          sep(x).0.b == b && x.idx < sep(x).0.idx <= |b|)
    && (forall x: Deserializer :: x.b == b && x.idx <= |b| && p(x).2.Valid() ==>
          p(x).0.b == b && x.idx <= p(x).0.idx <= |b|)
    && (forall x: Deserializer :: p(x).2.Err != Some(NoProgress))
  }

  /**
   * The NoProgress guard of the loop catches only an iteration in which the separator and the
   * element together consumed nothing, where the Go loop would spin. With advancing parsers the
   * loop never stops there.
   */
  lemma {:induction false} ListLoopProgresses<V>(p: Parser<Deserializer, V, CR>, sep: Parser<Deserializer, Empty, BoolResult>,
                                                 end: Parser<Deserializer, Empty, BoolResult>, d: Deserializer, bb2: Deserializer, vs: seq<V>)
    requires bb2.b == d.b && bb2.idx <= |d.b|
    requires Advancing(p, sep, d.b)
    ensures ListLoop(p, sep, end, d, bb2, vs).2.Err != Some(NoProgress)
    decreases |d.b| - bb2.idx
  {
    if !end(bb2).2.Valid() {
      var s := sep(bb2);
      if s.2.Valid() {
        var q := p(s.0);
        if q.2.Valid() {
          ListLoopProgresses(p, sep, end, d, q.0, vs + [q.1]);
        }
      }
    }
  }

  /**
   * The same for the whole list, given an end delimiter that never moves back: listParser
   * never stops with NoProgress of its own.
   */
  lemma ListProgresses<V>(p: Parser<Deserializer, V, CR>, sep: Parser<Deserializer, Empty, BoolResult>,
                          end: Parser<Deserializer, Empty, BoolResult>, d: Deserializer)
    requires d.idx <= |d.b|
    requires forall x: Deserializer :: x.b == d.b && x.idx <= |d.b| ==>
      end(x).0.b == d.b && x.idx <= end(x).0.idx <= |d.b|
    requires Advancing(p, sep, d.b)
    ensures ListParser(p, sep, end)(d).2.Err != Some(NoProgress)
  {
    var r := ListRun(p, sep, end, d);
    assert ListParser(p, sep, end)(d).2 == r.2;
    var e := end(d);
    if e.2.Valid() {
      assert r.2 == COK(true);
    } else {
      var q := p(e.0);
      if !q.2.Valid() {
        assert r.2 == q.2;
      } else {
        assert d.idx <= q.0.idx <= |d.b|;
        assert r.2 == ListLoop(p, sep, end, d, q.0, [q.1]).2;
        ListLoopProgresses(p, sep, end, d, q.0, [q.1]);
      }
    }
  }

  /** After an element, neither the end delimiter nor a separator: an error at the separator's cursor. */
  lemma ListMissingSeparator<V>(p: Parser<Deserializer, V, CR>, sep: Parser<Deserializer, Empty, BoolResult>,
                                end: Parser<Deserializer, Empty, BoolResult>, d: Deserializer, bb2: Deserializer, vs: seq<V>)
    requires !end(bb2).2.Valid() && !sep(bb2).2.Valid()
    ensures ListLoop(p, sep, end, d, bb2, vs) == (d, [], CErr(ErrNoMatch(sep(bb2).0)))
  {
  }

  /** A separator not followed by an element (a trailing separator): an error where the element was expected. */
  lemma ListTrailingSeparator<V>(p: Parser<Deserializer, V, CR>, sep: Parser<Deserializer, Empty, BoolResult>,
                                 end: Parser<Deserializer, Empty, BoolResult>, d: Deserializer, bb2: Deserializer, vs: seq<V>)
    requires !end(bb2).2.Valid() && sep(bb2).2.Valid()
    requires var q := p(sep(bb2).0); !q.2.OK && q.2.Err.None?
    ensures ListLoop(p, sep, end, d, bb2, vs) == (d, [], CErr(ErrNoMatch(p(sep(bb2).0).0)))
  {
  }

  /** compositeParser: start, then the list up to the end delimiter. */
  function Composite<V>(start: Parser<Deserializer, Empty, BoolResult>, end: Parser<Deserializer, Empty, BoolResult>,
                        sep: Parser<Deserializer, Empty, BoolResult>, elem: Parser<Deserializer, V, CR>): Parser<Deserializer, seq<V>, CR>
  {
    Surround([start], ListParser(elem, sep, end), [], [])
  }

  // ---------------------------------------------------------------- scalar parsers

  function ByteParsers(s: string): (ps: seq<Parser<Deserializer, byte, BoolResult>>)
    requires forall i :: 0 <= i < |s| ==> s[i] as int < 0x100
    ensures |ps| == |s|
  {
    seq(|s|, i requires 0 <= i < |s| => ByteParser(s[i] as byte))
  }

  function Bytes(s: string): (b: seq<byte>)
    requires forall i :: 0 <= i < |s| ==> s[i] as int < 0x100
    ensures |b| == |s| && forall i :: 0 <= i < |s| ==> b[i] == s[i] as byte
  {
    seq(|s|, i requires 0 <= i < |s| => s[i] as byte)
  }

  function NullOfText(v: seq<byte>): Value
  {
    NullValue
  }

  /** nullParser: the bytes "null". */
  function NullParser(): Parser<Deserializer, Output, CR>
  {
    OutputParser(BoolToC(Map(BK(), ChainP(BK(), ByteParsers("null")), NullOfText, NullValue)))
  }

  /** The value of boolParser's match: whether the text is "true". */
  function BoolOfText(v: seq<byte>): Value
  {
    BoolValue(v == Bytes("true"))
  }

  /** boolParser: "true" or "false", the value being whether "true" matched. */
  function BoolParser(): Parser<Deserializer, Output, CR>
  {
    OutputParser(BoolToC(Map(BK(),
      TryP(BK(), [ChainP(BK(), ByteParsers("true")), ChainP(BK(), ByteParsers("false"))], []),
      BoolOfText, NullValue)))
  }


  /** The conversion step of intParser. */
  function ParseUintStep(bb: seq<byte>): (uint64, CR)
  {
    match ParseUint(bb)
    case Success(v) => (v, COK(true))
    case Failure(e) => (0, CErr(e))
  }

  /** intParser: a digit run converted by ParseUint, so leading zeros are accepted and 2^64 and above fail. */
  function IntParser(): Parser<Deserializer, uint64, CR>
  {
    Validate(CK(), BoolToC(DigitsParser()), ParseUintStep, 0)
  }

  function ParseFloatStep(f: Foreign, bb: seq<byte>): (Float64, CR)
  {
    match f.parseFloat(bb)
    case Some(x) => (x, COK(true))
    case None => (0, CErr(FloatError(bb)))
  }

  /** The parts of a float: digits, '.', digits. */
  function FloatParts(): seq<Parser<Deserializer, seq<byte>, BoolResult>>
  {
    [DigitsParser(), ChainP(BK(), [ByteParser('.' as byte)]), DigitsParser()]
  }

  /** floatParser: digits '.' digits, converted by ParseFloat. */
  function FloatParser(f: Foreign): Parser<Deserializer, Float64, CR>
  {
    Validate(CK(), BoolToC(FlattenP(BK(), FloatParts())), bb => ParseFloatStep(f, bb), 0)
  }

  /** The float alternative of positiveNumberParser. */
  function FloatAlternative(f: Foreign): Parser<Deserializer, Number, CR>
  {
    Map(CK(), FloatParser(f), FloatNumber, ZeroNumber)
  }

  /** The integer alternative of positiveNumberParser. */
  function IntAlternative(): Parser<Deserializer, Number, CR>
  {
    Map(CK(), IntParser(), IntegerNumber, ZeroNumber)
  }

  /** positiveNumberParser: a float if digits '.' digits are there, else an integer. */
  function PositiveNumberParser(f: Foreign): Parser<Deserializer, Number, CR>
  {
    TryC([FloatAlternative(f), IntAlternative()], ZeroNumber)
  }

  function Negated(n: Number): Number
  {
    n.(IsNeg := true)
  }

  /** The first alternative of numberParser: '-' and a positive number, marked negative. */
  function NegativeNumberParser(f: Foreign): Parser<Deserializer, Number, CR>
  {
    Map(CK(), Surround([Discard(BK(), ByteParser('-' as byte))], PositiveNumberParser(f), [], ZeroNumber), Negated, ZeroNumber)
  }

  /** The alternation inside numberParser: a negative number, else a positive one. */
  function SignedNumberParser(f: Foreign): Parser<Deserializer, Number, CR>
  {
    TryC([NegativeNumberParser(f), PositiveNumberParser(f)], ZeroNumber)
  }

  function NumberOf(n: Number): Value
  {
    NumberValue(n)
  }

  /** numberParser: '-' and a positive number (marked negative), or a positive number. */
  function NumberParser(f: Foreign): Parser<Deserializer, Output, CR>
  {
    OutputParser(Map(CK(), SignedNumberParser(f), NumberOf, NullValue))
  }

  function UnquoteStep(f: Foreign, bb: seq<byte>): (string, CR)
  {
    match f.unquote(bb)
    case Some(s) => (s, COK(true))
    case None => ("", CErr(UnquoteError(bb)))
  }

  /** The opening quote of a string, as a chain of one byte parser. */
  function OpenQuote(): Parser<Deserializer, seq<byte>, CR>
  {
    BoolToC(ChainP(BK(), [ByteParser(QUOTE)]))
  }

  /** rawStringParser: an opening quote, the scanned bytes through the closing quote, then Unquote on the whole. */
  function RawStringParser(f: Foreign): Parser<Deserializer, string, CR>
  {
    Validate(CK(), FlattenP(CK(), [OpenQuote(), ScanParser()]), bb => UnquoteStep(f, bb), "")
  }

  function StringParser(f: Foreign): Parser<Deserializer, Output, CR>
  {
    OutputParser(Map(CK(), RawStringParser(f), (s: string) => StringValue(s), NullValue))
  }

  /** errBoolResult: a failed match becomes a no-match error at the returned cursor (byteParser never returns nil). */
  function ErrBoolResult(d: Deserializer, br: BoolResult): (r: CR)
    ensures r.Valid() == br.Valid()
    ensures !br.Valid() ==> r.Err == Some(ErrNoMatch(d))
  {
    if br.Valid() then COK(true) else CErr(ErrNoMatch(d))
  }

  // ---------------------------------------------------------------- arrays and objects

  function Values(os: seq<Output>): (vs: seq<Value>)
    ensures |vs| == |os| && forall i :: 0 <= i < |os| ==> vs[i] == os[i].value
  {
    seq(|os|, i requires 0 <= i < |os| => os[i].value)
  }

  function Nodes(os: seq<Output>): (ns: seq<Node>)
    ensures |ns| == |os| && forall i :: 0 <= i < |os| ==> ns[i] == os[i].node
  {
    seq(|os|, i requires 0 <= i < |os| => os[i].node)
  }

  /** The array mapper: the element values in order, with their nodes and the array's span. */
  function ArrayOutput(l: LocV<seq<Output>>): Output
  {
    Output(ArrayValue(Values(l.v)), Node([], Nodes(l.v), l.start, l.end))
  }

  /** The loop of the array mapper. */
  method ArrayMapper(l: LocV<seq<Output>>) returns (o: Output)
    ensures o == ArrayOutput(l)
  {
    var vals: seq<Value> := [];
    var nodes: seq<Node> := [];
    var i := 0;
    while i < |l.v|
      invariant 0 <= i <= |l.v|
      invariant vals == Values(l.v[..i]) && nodes == Nodes(l.v[..i])
    {
      vals := vals + [l.v[i].value];
      nodes := nodes + [l.v[i].node];
      i := i + 1;
    }
    assert l.v[..i] == l.v;
    return Output(ArrayValue(vals), Node([], nodes, l.start, l.end));
  }

  function Members(kvs: seq<KeyValue>): (ms: seq<Member>)
    ensures |ms| == |kvs| && forall i :: 0 <= i < |kvs| ==> ms[i] == Member(kvs[i].key.v, kvs[i].value.value)
  {
    seq(|kvs|, i requires 0 <= i < |kvs| => Member(kvs[i].key.v, kvs[i].value.value))
  }

  function Pairs(kvs: seq<KeyValue>): (ps: seq<(string, Value)>)
    ensures |ps| == |kvs| && forall i :: 0 <= i < |kvs| ==> ps[i] == (kvs[i].key.v, kvs[i].value.value)
  {
    seq(|kvs|, i requires 0 <= i < |kvs| => (kvs[i].key.v, kvs[i].value.value))
  }

  function KeyNodes(kvs: seq<KeyValue>): (ns: seq<NodeKeyValue>)
    ensures |ns| == |kvs|
    ensures forall i :: 0 <= i < |kvs| ==> ns[i] == NodeKeyValue("", kvs[i].key.start, kvs[i].key.end, kvs[i].value.node)
  {
    seq(|kvs|, i requires 0 <= i < |kvs| => NodeKeyValue("", kvs[i].key.start, kvs[i].key.end, kvs[i].value.node))
  }

  /** The object mapper: every member in source order, duplicates kept, with their nodes and the object's span. */
  function ObjectOutput(l: LocV<seq<KeyValue>>): (Output, CR)
  {
    (Output(ObjectValue(Members(l.v)), Node(KeyNodes(l.v), [], l.start, l.end)), COK(true))
  }

  /**
   * The loop of the object mapper: each member is added to a fresh Object with Add, so the
   * Object holds the members in source order, duplicates included.
   */
  method ObjectMapper(l: LocV<seq<KeyValue>>) returns (obj: OrderedMap.Object, nodes: seq<NodeKeyValue>)
    ensures fresh(obj) && obj.Valid()
    ensures obj.Contents() == Pairs(l.v)
    ensures nodes == KeyNodes(l.v)
  {
    obj := new OrderedMap.Object();
    nodes := [];
    var i := 0;
    while i < |l.v|
      invariant 0 <= i <= |l.v|
      invariant fresh(obj) && obj.Valid() && (obj.m == null || fresh(obj.m))
      invariant obj.Contents() == Pairs(l.v[..i])
      invariant nodes == KeyNodes(l.v[..i])
    {
      var kv := l.v[i];
      nodes := nodes + [NodeKeyValue("", kv.key.start, kv.key.end, kv.value.node)];
      obj.Add(kv.key.v, kv.value.value);
      i := i + 1;
    }
    assert l.v[..i] == l.v;
  }

  function KeyValueOfKey(s: LocV<string>): KeyValue
  {
    KeyValue(s, ZeroOutput)
  }

  function KeyValueOfValue(o: Output): KeyValue
  {
    KeyValue(LocV(ZeroLoc, ZeroLoc, ""), o)
  }

  /** The key of the first part and the value of the second (Chain always yields both on success). */
  function JoinKeyValue(kvs: seq<KeyValue>): KeyValue
  {
    if |kvs| >= 2 then KeyValue(kvs[0].key, kvs[1].value) else ZeroKeyValue
  }

  /** The key part of an object member: a located string and then, after white space, ':'. */
  function KeyPart(f: Foreign): Parser<Deserializer, KeyValue, CR>
  {
    Surround([], Map(CK(), LocParser(RawStringParser(f)), KeyValueOfKey, ZeroKeyValue),
      [Discard(CK(), TrimSpace(MapR(ByteParser(':' as byte), ErrBoolResult)))], ZeroKeyValue)
  }

  /** A parser for nesting beyond the depth bound. */
  function TooDeepParser<O, R>(zero: O, fail: R): Parser<Deserializer, O, R>
  {
    d => (d, zero, fail)
  }

  /** LazyP(jsonParserC) one level down. */
  function NestedC(f: Foreign, depth: nat): Parser<Deserializer, Output, CR>
    decreases depth, 0
  {
    if depth == 0 then TooDeepParser(ZeroOutput, CErr(TooDeep))
    else LazyP(() => JsonC(f, depth - 1))
  }

  /** LazyP(jsonParserE) one level down. */
  function NestedE(f: Foreign, depth: nat): Parser<Deserializer, Output, ErrResult<Error>>
    decreases depth, 0
  {
    if depth == 0 then TooDeepParser(ZeroOutput, Err(Some(TooDeep)))
    else LazyP(() => JsonE(f, depth - 1))
  }

  /** The value part of an object member: a JSON value, where no match is an error. */
  function ValuePart(f: Foreign, depth: nat): Parser<Deserializer, KeyValue, CR>
    decreases depth, 1
  {
    Map(CK(), ErrToC(NestedE(f, depth)), KeyValueOfValue, ZeroKeyValue)
  }

  /** An object member: key part then value part. */
  function ElemParser(f: Foreign, depth: nat): Parser<Deserializer, KeyValue, CR>
    decreases depth, 2
  {
    Map(CK(), ChainP(CK(), [KeyPart(f), ValuePart(f, depth)]), JoinKeyValue, ZeroKeyValue)
  }

  /** arrayParser: '[' then values separated by ',' up to ']', white space allowed around them. */
  function ArrayParser(f: Foreign, depth: nat): Parser<Deserializer, Output, CR>
    decreases depth, 3
  {
    Map(CK(),
      LocParser(Composite(
        Discard(BK(), ByteParser('[' as byte)),
        Discard(BK(), TrimSpace(ByteParser(']' as byte))),
        Discard(BK(), TrimSpace(ByteParser(',' as byte))),
        NestedC(f, depth))),
      ArrayOutput, ZeroOutput)
  }

  /** objectParser: '{' then members separated by ',' up to '}'. */
  function ObjectParser(f: Foreign, depth: nat): Parser<Deserializer, Output, CR>
    decreases depth, 3
  {
    Validate(CK(),
      LocParser(Composite(
        Discard(BK(), ByteParser('{' as byte)),
        Discard(BK(), TrimSpace(ByteParser('}' as byte))),
        Discard(BK(), TrimSpace(ByteParser(',' as byte))),
        TrimSpace(ElemParser(f, depth)))),
      ObjectOutput, ZeroOutput)
  }

  /** The j-th of the six value parsers, in the order jsonParserC tries them. */
  function Alternative(f: Foreign, depth: nat, j: nat): Parser<Deserializer, Output, CR>
    requires j < 6
    decreases depth, 4
  {
    if j == 0 then NullParser()
    else if j == 1 then BoolParser()
    else if j == 2 then NumberParser(f)
    else if j == 3 then StringParser(f)
    else if j == 4 then ArrayParser(f, depth)
    else ObjectParser(f, depth)
  }

  /** The six value parsers as the alternatives of jsonParserC. */
  function Alternatives(f: Foreign, depth: nat): (ps: seq<Parser<Deserializer, Output, CR>>)
    ensures |ps| == 6
    decreases depth, 5
  {
    [Alternative(f, depth, 0), Alternative(f, depth, 1), Alternative(f, depth, 2),
     Alternative(f, depth, 3), Alternative(f, depth, 4), Alternative(f, depth, 5)]
  }

  /** jsonParserC: after white space, the first of the six value parsers that matches or fails. */
  function JsonC(f: Foreign, depth: nat): Parser<Deserializer, Output, CR>
    decreases depth, 6
  {
    TrimSpace(TryC(Alternatives(f, depth), ZeroOutput))
  }

  /** The result mapping of jsonParserE: a no-match becomes an error at the returned cursor. */
  function MustMatch(d: Deserializer, r: CR): (e: ErrResult<Error>)
    ensures e.Valid() <==> r.Valid()
    ensures r.Err.Some? ==> e == Err(r.Err)
    ensures !r.Valid() && r.Err.None? ==> e == Err(Some(ErrNoMatch(d)))
  {
    if r.Valid() then Err(None)
    else if r.Err.Some? then r.ToE()
    else Err(Some(ErrNoMatch(d)))
  }

  /** jsonParserE: a JSON value, where no match is an error. */
  function JsonE(f: Foreign, depth: nat): Parser<Deserializer, Output, ErrResult<Error>>
    decreases depth, 7
  {
    TrimSpace(MapR(JsonC(f, depth), MustMatch))
  }

  // ---------------------------------------------------------------- deserialize

  /**
   * deserialize: parse one value from the start of b. Nesting is bounded by |b| + 1 levels,
   * more than the input can hold, since every level consumes its opening bracket.
   */
  function DeserializeOutput(f: Foreign, b: seq<byte>): Result<Output, Error>
  {
    var r := JsonE(f, |b| + 1)(Start(b));
    match r.2
    case ErrResult(Some(e)) => Failure(e)
    case _ => Success(r.1)
  }

  /** Deserialize: the value of deserialize. */
  function Deserialize(f: Foreign, b: seq<byte>): Result<Value, Error>
  {
    match DeserializeOutput(f, b)
    case Success(o) => Success(o.value)
    case Failure(e) => Failure(e)
  }
}
