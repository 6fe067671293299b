/**
 * The serializer of serialize.go. `Render` is the text a value appends at a nesting level
 * under a `Serializer`'s options; the `Append…` methods grow a byte buffer step by step as the
 * Go `append` methods do and are proved to append exactly `Render`. `Join` is an independent
 * reference for the comma-separated layout, and the integer text is shown to parse back
 * through the grammar's own `ParseUint`.
 */
module Serialize {
  import opened Wrappers
  import opened GenJson
  import opened Cursor

  /** The four options of `Serializer`. Indent and Prefix are space counts. */
  datatype Serializer = Serializer(Indent: nat, Prefix: nat, KeyValueGap: bool, SortKeys: bool)

  /** The zero `Serializer` that the package-level `Serialize` uses. */
  const DefaultSerializer := Serializer(0, 0, false, false)

  /** strconv.FormatFloat(f, 'f', -1, 64) and strconv.Quote, which the model does not look into. */
  datatype Formatters = Formatters(formatFloat: Float64 -> seq<byte>, quote: string -> seq<byte>)

  const SPACE: byte := ' ' as byte
  const COMMA: byte := ',' as byte
  const COLON: byte := ':' as byte
  const DOT: byte := '.' as byte
  const MINUS: byte := '-' as byte
  const LBRACKET: byte := '[' as byte
  const RBRACKET: byte := ']' as byte
  const LBRACE: byte := '{' as byte
  const RBRACE: byte := '}' as byte

  const NULL_TEXT: seq<byte> := ['n' as byte, 'u' as byte, 'l' as byte, 'l' as byte]
  const TRUE_TEXT: seq<byte> := ['t' as byte, 'r' as byte, 'u' as byte, 'e' as byte]
  const FALSE_TEXT: seq<byte> := ['f' as byte, 'a' as byte, 'l' as byte, 's' as byte, 'e' as byte]

  function Spaces(n: nat): (r: seq<byte>)
    ensures |r| == n && forall i :: 0 <= i < n ==> r[i] == SPACE
  {
    seq(n, _ => SPACE)
  }

  // ---------------------------------------------------------------- indentation

  /**
   * The text appendIndent adds at a level: nothing when Indent is 0, otherwise a newline
   * followed by Prefix + Indent * level spaces.
   */
  function IndentText(s: Serializer, level: nat): (r: seq<byte>)
    ensures r == [] <==> s.Indent == 0
    ensures s.Indent != 0 ==>
      && |r| == 1 + s.Prefix + s.Indent * level
      && r[0] == NL
      && forall i :: 1 <= i < |r| ==> r[i] == SPACE
  {
    if s.Indent == 0 then [] else [NL] + Spaces(s.Prefix) + Spaces(s.Indent * level)
  }

  /** appendIndent: the buffer grows by the indentation of the level and nothing else. */
  method AppendIndent(s: Serializer, level: nat, bb: seq<byte>) returns (r: seq<byte>)
    ensures r == bb + IndentText(s, level)
  {
    r := bb;
    if s.Indent != 0 {
      r := r + [NL];
      r := r + Spaces(s.Prefix);
      r := r + Spaces(s.Indent * level);
    }
  }

  // ---------------------------------------------------------------- scalars

  /** The decimal digits of n, most significant first (strconv.FormatUint(n, 10)). */
  function DecimalDigits(n: nat): (r: seq<byte>)
    ensures |r| > 0 && forall i :: 0 <= i < |r| ==> IsDigit(r[i])
    ensures DecimalValue(r) == n
    ensures r[0] == '0' as byte ==> r == ['0' as byte]
    decreases n
  {
    var last := ('0' as int + n % 10) as byte;
    if n < 10 then [last]
    else
      var r := DecimalDigits(n / 10) + [last];
      assert r[..|r| - 1] == DecimalDigits(n / 10);
      r
  }

  /** FormatUint's text parses back, through the integer parser's ParseUint, to the same integer. */
  lemma FormatUintRoundTrip(i: uint64)
    ensures ParseUint(DecimalDigits(i as nat)) == Success(i)
  {
    var t := DecimalDigits(i as nat);
    assert DecimalValue(t) < TWO64;
  }

  /** strconv.FormatBool. */
  function BoolText(b: bool): (r: seq<byte>)
    ensures r == (if b then TRUE_TEXT else FALSE_TEXT)
  {
    if b then TRUE_TEXT else FALSE_TEXT
  }

  /**
   * Number.append: an integer-kind number is its decimal digits, which hold no '.'; a float-kind
   * number is FormatFloat's text with ".0" added when that text has no '.', so it always holds one.
   */
  function NumberText(c: Formatters, n: Number): (r: seq<byte>)
    ensures !n.IsFloat ==>
      && (forall i :: 0 <= i < |r| ==> IsDigit(r[i]))
      && DOT !in r
      && ParseUint(r) == Success(n.Integer)
    ensures n.IsFloat ==>
      && DOT in r
      && var t := c.formatFloat(n.Float);
      && (DOT in t ==> r == t)
      && (DOT !in t ==> r == t + [DOT, '0' as byte])
  {
    if n.IsFloat then
      var t := c.formatFloat(n.Float);
      if DOT in t then t else
        var r := t + [DOT, '0' as byte];
        assert r[|t|] == DOT;
        r
    else
      FormatUintRoundTrip(n.Integer);
      DecimalDigits(n.Integer as nat)
  }

  /** The sign flag is never consulted: a number and its negation render alike. */
  lemma SignNotRendered(c: Formatters, n: Number)
    ensures NumberText(c, n) == NumberText(c, n.(IsNeg := !n.IsNeg))
  {
  }

  /**
   * The text Number.append evidently means to write: the magnitude's text after a '-' when the
   * number is negative. For an integer the leading '-' is there exactly when IsNeg is set and
   * the digits after it parse back to the magnitude.
   */
  function SignedNumberText(c: Formatters, n: Number): (r: seq<byte>)
    ensures !n.IsFloat ==> |r| > 0 && (r[0] == MINUS <==> n.IsNeg)
    ensures !n.IsFloat ==> ParseUint(r[if n.IsNeg then 1 else 0..]) == Success(n.Integer)
  {
    var t := NumberText(c, n);
    if n.IsNeg then
      assert ([MINUS] + t)[1..] == t;
      [MINUS] + t
    else t
  }

  // ---------------------------------------------------------------- key order

  /** sort.Strings' order: lexicographic by character code (for UTF-8 text, the byte order). */
  predicate KeyLe(a: string, b: string)
    decreases |a|
  {
    a == [] || (b != [] && (a[0] < b[0] || (a[0] == b[0] && KeyLe(a[1..], b[1..]))))
  }

  lemma {:induction false} KeyLeTotal(a: string, b: string)
    ensures KeyLe(a, b) || KeyLe(b, a)
    decreases |a|
  {
    if a != [] && b != [] && a[0] == b[0] {
      KeyLeTotal(a[1..], b[1..]);
    }
  }

  lemma {:induction false} KeyLeTransitive(a: string, b: string, c: string)
    requires KeyLe(a, b) && KeyLe(b, c)
    ensures KeyLe(a, c)
    decreases |a|
  {
    if a != [] && a[0] == b[0] && b[0] == c[0] {
      KeyLeTransitive(a[1..], b[1..], c[1..]);
    }
  }

  predicate SortedByKey(ms: seq<Member>)
  {
    forall i, j :: 0 <= i < j < |ms| ==> KeyLe(ms[i].key, ms[j].key)
  }

  /** Inserts m into ms after every member whose key is not above m's. */
  function InsertByKey(ms: seq<Member>, m: Member): (r: seq<Member>)
    ensures multiset(r) == multiset(ms) + multiset{m}
    ensures |r| == |ms| + 1
  {
    if ms == [] then [m]
    else if KeyLe(ms[|ms| - 1].key, m.key) then ms + [m]
    else
      assert ms == ms[..|ms| - 1] + [ms[|ms| - 1]];
      InsertByKey(ms[..|ms| - 1], m) + [ms[|ms| - 1]]
  }

  lemma {:induction false} InsertKeepsSorted(ms: seq<Member>, m: Member)
    requires SortedByKey(ms)
    ensures SortedByKey(InsertByKey(ms, m))
  {
    if ms != [] && !KeyLe(ms[|ms| - 1].key, m.key) {
      var init, last := ms[..|ms| - 1], ms[|ms| - 1];
      InsertKeepsSorted(init, m);
      var r := InsertByKey(init, m);
      KeyLeTotal(last.key, m.key);
      forall i | 0 <= i < |r| ensures KeyLe(r[i].key, last.key) {
        assert r[i] in multiset(init) + multiset{m};
        if r[i] != m {
          var k :| 0 <= k < |init| && init[k] == r[i];
          assert ms[k] == r[i];
        }
      }
      var r' := r + [last];
      forall i, j | 0 <= i < j < |r'| ensures KeyLe(r'[i].key, r'[j].key) {
        if j < |r| {
          assert r'[i] == r[i] && r'[j] == r[j];
        }
      }
    } else if ms != [] {
      var r := ms + [m];
      forall i, j | 0 <= i < j < |r| ensures KeyLe(r[i].key, r[j].key) {
        if j == |ms| && i < |ms| - 1 {
          KeyLeTransitive(ms[i].key, ms[|ms| - 1].key, m.key);
        }
      }
    }
  }

  /** sort.Strings over the collected keys, as a stable insertion sort of the members by key. */
  function SortByKey(ms: seq<Member>): (r: seq<Member>)
    ensures multiset(r) == multiset(ms)
  {
    if ms == [] then []
    else
      assert ms == ms[..|ms| - 1] + [ms[|ms| - 1]];
      InsertByKey(SortByKey(ms[..|ms| - 1]), ms[|ms| - 1])
  }

  lemma {:induction false} SortByKeySorted(ms: seq<Member>)
    ensures SortedByKey(SortByKey(ms))
  {
    if ms != [] {
      SortByKeySorted(ms[..|ms| - 1]);
      InsertKeepsSorted(SortByKey(ms[..|ms| - 1]), ms[|ms| - 1]);
    }
  }

  /**
   * The order in which Object.append emits the members: iteration order, or ascending key
   * order when SortKeys is set; either way the same members, each as often.
   */
  function Ordered(s: Serializer, ms: seq<Member>): (r: seq<Member>)
    ensures multiset(r) == multiset(ms)
    ensures forall i :: 0 <= i < |r| ==> r[i] in ms
    ensures s.SortKeys ==> SortedByKey(r)
    ensures !s.SortKeys ==> r == ms
  {
    if s.SortKeys then
      SortByKeySorted(ms);
      var r := SortByKey(ms);
      assert forall i :: 0 <= i < |r| ==> r[i] in multiset(ms);
      r
    else ms
  }

  // ---------------------------------------------------------------- rendering

  /** The bytes v.append(s, level, bb) adds after bb. */
  function Render(s: Serializer, c: Formatters, level: nat, v: Value): seq<byte>
    decreases v, 0
  {
    match v
    case NullValue => NULL_TEXT
    case BoolValue(b) => BoolText(b)
    case NumberValue(n) => NumberText(c, n)
    case StringValue(str) => c.quote(str)
    case ArrayValue(es) =>
      [LBRACKET] + Items(s, c, level, es, |es|) + IndentText(s, level) + [RBRACKET]
    case ObjectValue(ms) =>
      var keys := Ordered(s, ms);
      [LBRACE] + Entries(s, c, level, ms, keys, |keys|) + IndentText(s, level) + [RBRACE]
  }

  /** The first n elements of an array as the loop of Array.append emits them. */
  function Items(s: Serializer, c: Formatters, level: nat, es: seq<Value>, n: nat): seq<byte>
    requires n <= |es|
    decreases es, n
  {
    if n == 0 then [] else Items(s, c, level, es, n - 1) + ItemText(s, c, level, es, n - 1)
  }

  /** One turn of that loop: ',' unless first, the indentation one level down, the element. */
  function ItemText(s: Serializer, c: Formatters, level: nat, es: seq<Value>, i: nat): seq<byte>
    requires i < |es|
    decreases es, i
  {
    (if i > 0 then [COMMA] else []) + ElementText(s, c, level, es[i])
  }

  /** An element of an array at a level: the indentation one level down, then the element there. */
  function ElementText(s: Serializer, c: Formatters, level: nat, v: Value): seq<byte>
    decreases v, 1
  {
    IndentText(s, level + 1) + Render(s, c, level + 1, v)
  }

  /** The text of one member: the indented quoted key, ':', the optional gap and the value. */
  function EntryText(s: Serializer, c: Formatters, level: nat, m: Member): seq<byte>
    decreases m
  {
    IndentText(s, level + 1) + c.quote(m.key) + [COLON] + (if s.KeyValueGap then [SPACE] else [])
    + Render(s, c, level + 1, m.value)
  }

  /** The first n of keys (members of the object `from`) as the loop of Object.append emits them. */
  function Entries(s: Serializer, c: Formatters, level: nat, from: seq<Member>, keys: seq<Member>, n: nat): seq<byte>
    requires n <= |keys|
    requires forall i :: 0 <= i < |keys| ==> keys[i] in from
    decreases from, n
  {
    if n == 0 then []
    else Entries(s, c, level, from, keys, n - 1) + (if n > 1 then [COMMA] else []) + EntryText(s, c, level, keys[n - 1])
  }

  // ---------------------------------------------------------------- layout

  /** The parts with sep between each two neighbours: the reference comma-separated layout. */
  function Join<T>(parts: seq<seq<T>>, sep: seq<T>): seq<T>
  {
    if parts == [] then []
    else if |parts| == 1 then parts[0]
    else Join(parts[..|parts| - 1], sep) + sep + parts[|parts| - 1]
  }

  function SumLengths<T>(parts: seq<seq<T>>): nat
  {
    if parts == [] then 0 else SumLengths(parts[..|parts| - 1]) + |parts[|parts| - 1]|
  }

  /** n parts joined carry exactly n - 1 separators. */
  lemma {:induction false} JoinLength<T>(parts: seq<seq<T>>, sep: seq<T>)
    requires parts != []
    ensures |Join(parts, sep)| == SumLengths(parts) + (|parts| - 1) * |sep|
  {
    if |parts| > 1 {
      var init := parts[..|parts| - 1];
      JoinLength(init, sep);
      assert (|parts| - 1) * |sep| == (|init| - 1) * |sep| + |sep|;
    } else {
      assert parts[..0] == [];
    }
  }

  function ElementTexts(s: Serializer, c: Formatters, level: nat, es: seq<Value>): (r: seq<seq<byte>>)
    ensures |r| == |es|
  {
    seq(|es|, i requires 0 <= i < |es| => ElementText(s, c, level, es[i]))
  }

  function EntryTexts(s: Serializer, c: Formatters, level: nat, keys: seq<Member>): (r: seq<seq<byte>>)
    ensures |r| == |keys|
  {
    seq(|keys|, i requires 0 <= i < |keys| => EntryText(s, c, level, keys[i]))
  }

  lemma {:induction false} ItemsJoin(s: Serializer, c: Formatters, level: nat, es: seq<Value>, n: nat)
    requires n <= |es|
    ensures Items(s, c, level, es, n) == Join(ElementTexts(s, c, level, es)[..n], [COMMA])
  {
    if n > 0 {
      ItemsJoin(s, c, level, es, n - 1);
      var parts := ElementTexts(s, c, level, es)[..n];
      assert parts[..n - 1] == ElementTexts(s, c, level, es)[..n - 1];
      if n == 1 {
        assert Items(s, c, level, es, 0) == [];
      }
    }
  }

  lemma {:induction false} EntriesJoin(s: Serializer, c: Formatters, level: nat, from: seq<Member>, keys: seq<Member>, n: nat)
    requires n <= |keys|
    requires forall i :: 0 <= i < |keys| ==> keys[i] in from
    ensures Entries(s, c, level, from, keys, n) == Join(EntryTexts(s, c, level, keys)[..n], [COMMA])
  {
    if n > 0 {
      EntriesJoin(s, c, level, from, keys, n - 1);
      var parts := EntryTexts(s, c, level, keys)[..n];
      assert parts[..n - 1] == EntryTexts(s, c, level, keys)[..n - 1];
    }
  }

  /**
   * Array.append's layout: '[', the elements (each indented one level down) separated by
   * ',', the indentation of the array's own level, ']'. So an empty array under a non-zero
   * Indent still puts a newline before its ']'.
   */
  lemma ArrayLayout(s: Serializer, c: Formatters, level: nat, es: seq<Value>)
    ensures Render(s, c, level, ArrayValue(es))
      == [LBRACKET] + Join(ElementTexts(s, c, level, es), [COMMA]) + IndentText(s, level) + [RBRACKET]
    ensures es == [] && s.Indent != 0 ==> Render(s, c, level, ArrayValue(es))[1] == NL
  {
    ItemsJoin(s, c, level, es, |es|);
    assert ElementTexts(s, c, level, es)[..|es|] == ElementTexts(s, c, level, es);
  }

  /**
   * Object.append's layout: '{', the members in emission order (each indented one level
   * down, quoted key, ':', one space exactly when KeyValueGap is set, the value) separated
   * by ',', the indentation of the object's own level, '}'.
   */
  lemma ObjectLayout(s: Serializer, c: Formatters, level: nat, ms: seq<Member>)
    ensures var keys := Ordered(s, ms);
      Render(s, c, level, ObjectValue(ms))
        == [LBRACE] + Join(EntryTexts(s, c, level, keys), [COMMA]) + IndentText(s, level) + [RBRACE]
  {
    var keys := Ordered(s, ms);
    EntriesJoin(s, c, level, ms, keys, |keys|);
    assert EntryTexts(s, c, level, keys)[..|keys|] == EntryTexts(s, c, level, keys);
  }

  /**
   * The key gap is one space right after a member's ':': for a scalar value, the member's
   * text with KeyValueGap set is its text without it plus a single space at that point.
   */
  lemma KeyValueGapIsOneSpace(s: Serializer, c: Formatters, level: nat, m: Member)
    requires !m.value.ArrayValue? && !m.value.ObjectValue?
    ensures var on := EntryText(s.(KeyValueGap := true), c, level, m);
      && var off := EntryText(s.(KeyValueGap := false), c, level, m);
      && var k := |IndentText(s, level + 1)| + |c.quote(m.key)| + 1;
      && |on| == |off| + 1 && on[..k] == off[..k] && on[k] == SPACE && on[k + 1..] == off[k..]
      && off[k - 1] == COLON
  {
  }

  // ---------------------------------------------------------------- the append methods

  lemma AppendAssoc<T>(a: seq<T>, b: seq<T>, c: seq<T>)
    ensures a + b + c == a + (b + c)
  {
  }

  lemma Bracketed<T>(bb: seq<T>, open: seq<T>, prev: seq<T>, sep: seq<T>, item: seq<T>)
    ensures bb + (open + prev) + sep + item == bb + (open + (prev + sep + item))
  {
    AppendAssoc(bb + (open + prev), sep, item);
    AppendAssoc(bb, open + prev, sep + item);
    AppendAssoc(open, prev, sep + item);
    AppendAssoc(prev, sep, item);
  }

  /** v.append(s, level, bb): appends exactly the rendering of v. */
  method AppendValue(s: Serializer, c: Formatters, level: nat, bb: seq<byte>, v: Value) returns (r: seq<byte>)
    ensures r == bb + Render(s, c, level, v)
    decreases v, 1
  {
    match v
    case NullValue => r := bb + NULL_TEXT;
    case BoolValue(b) => r := bb + BoolText(b);
    case NumberValue(n) => r := bb + NumberText(c, n);
    case StringValue(str) => r := bb + c.quote(str);
    case ArrayValue(es) => r := AppendArray(s, c, level, bb, es);
    case ObjectValue(ms) => r := AppendObject(s, c, level, bb, ms);
  }

  /** Array.append. */
  method AppendArray(s: Serializer, c: Formatters, level: nat, bb: seq<byte>, es: seq<Value>) returns (r: seq<byte>)
    ensures r == bb + Render(s, c, level, ArrayValue(es))
    decreases es, |es| + 1
  {
    r := bb + [LBRACKET];
    var i := 0;
    while i < |es|
      invariant 0 <= i <= |es|
      invariant r == bb + ([LBRACKET] + Items(s, c, level, es, i))
    {
      ghost var before := r;
      r := AppendItem(s, c, level, r, es, i);
      AppendAssoc(bb, [LBRACKET] + Items(s, c, level, es, i), ItemText(s, c, level, es, i));
      AppendAssoc([LBRACKET], Items(s, c, level, es, i), ItemText(s, c, level, es, i));
      i := i + 1;
    }
    ghost var body := [LBRACKET] + Items(s, c, level, es, i);
    r := AppendIndent(s, level, r);
    AppendAssoc(bb, body, IndentText(s, level));
    r := r + [RBRACKET];
    AppendAssoc(bb, body + IndentText(s, level), [RBRACKET]);
  }

  /** The body of Array.append's loop for element i. */
  method AppendItem(s: Serializer, c: Formatters, level: nat, bb: seq<byte>, es: seq<Value>, i: nat) returns (r: seq<byte>)
    requires i < |es|
    ensures r == bb + ItemText(s, c, level, es, i)
    decreases es, i
  {
    r := bb;
    if i > 0 {
      r := r + [COMMA];
    }
    r := AppendIndent(s, level + 1, r);
    r := AppendValue(s, c, level + 1, r, es[i]);
  }

  /** Object.append: collect the members, sort them when asked, then emit each one. */
  method AppendObject(s: Serializer, c: Formatters, level: nat, bb: seq<byte>, o: seq<Member>) returns (r: seq<byte>)
    ensures r == bb + Render(s, c, level, ObjectValue(o))
    decreases o, 0
  {
    r := bb + [LBRACE];
    assert r == bb + ([LBRACE] + Entries(s, c, level, o, o, 0));
    var keys: seq<Member> := [];
    for k := 0 to |o|
      invariant keys == o[..k]
    {
      keys := keys + [o[k]];
    }
    assert keys == o;
    if s.SortKeys {
      keys := SortByKey(keys);
    }
    assert keys == Ordered(s, o);
    var i := 0;
    while i < |keys|
      invariant 0 <= i <= |keys|
      invariant r == bb + ([LBRACE] + Entries(s, c, level, o, keys, i))
    {
      assert keys[i] in o;
      ghost var sep := if i > 0 then [COMMA] else [];
      ghost var prev := Entries(s, c, level, o, keys, i);
      ghost var item := EntryText(s, c, level, keys[i]);
      r := AppendEntry(s, c, level, r, i > 0, keys[i]);
      Bracketed(bb, [LBRACE], prev, sep, item);
      assert Entries(s, c, level, o, keys, i + 1) == prev + sep + item;
      i := i + 1;
    }
    ghost var body := [LBRACE] + Entries(s, c, level, o, keys, i);
    r := AppendIndent(s, level, r);
    AppendAssoc(bb, body, IndentText(s, level));
    r := r + [RBRACE];
    AppendAssoc(bb, body + IndentText(s, level), [RBRACE]);
  }

  /** The body of Object.append's key loop for one member, with ',' unless it is the first. */
  method AppendEntry(s: Serializer, c: Formatters, level: nat, bb: seq<byte>, comma: bool, m: Member) returns (r: seq<byte>)
    ensures r == bb + (if comma then [COMMA] else []) + EntryText(s, c, level, m)
    decreases m
  {
    r := bb;
    if comma {
      r := r + [COMMA];
    }
    r := AppendIndent(s, level + 1, r);
    r := r + c.quote(m.key);
    r := r + [COLON];
    if s.KeyValueGap {
      r := r + [SPACE];
    }
    r := AppendValue(s, c, level + 1, r, m.value);
  }

  /** Serializer.Serialize: Prefix spaces, then the value at level 0, and nothing after it. */
  method SerializeWith(s: Serializer, c: Formatters, v: Value) returns (buf: seq<byte>)
    ensures buf == Spaces(s.Prefix) + Render(s, c, 0, v)
  {
    buf := [];
    buf := buf + Spaces(s.Prefix);
    buf := AppendValue(s, c, 0, buf, v);
  }

  /** The package-level Serialize: the zero Serializer, so no prefix and no white space of its own. */
  method Serialize(c: Formatters, v: Value) returns (buf: seq<byte>)
    ensures buf == Render(DefaultSerializer, c, 0, v)
  {
    buf := SerializeWith(DefaultSerializer, c, v);
  }
}
