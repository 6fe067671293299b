/**
 * The integer paths of unmarshal.go: the kind dispatch and range checks of `Number.unmarshal`
 * for signed and unsigned targets, the integer branch of `looseUint64`, the kind check of
 * `Null.unmarshal`, and the text of `UnmarshalError.Error`. A reflect.Value is modelled by
 * its kind, its type's name and, for a pointer, what it points to; storing into it is the
 * `Stored` value the operation returns.
 */
module Unmarshal {
  import opened Wrappers
  import opened GenJson
  import opened Grammar
  import opened Serialize

  /** The reflect kinds these paths tell apart; every other kind is `OtherKind`. */
  datatype Kind =
    | BoolKind
    | IntKind | Int8Kind | Int16Kind | Int32Kind | Int64Kind
    | UintKind | Uint8Kind | Uint16Kind | Uint32Kind | Uint64Kind
    | Float32Kind | Float64Kind
    | StringKind | PointerKind | SliceKind | ArrayKind | MapKind | InterfaceKind | StructKind
    | InvalidKind | OtherKind

  /**
   * A reflect.Value as these paths see it: the kind, the text of its type (reflect.Type's
   * String, e.g. "int32" or "*genjson.ci"), and, for a pointer, the value it points to
   * (None for a nil pointer).
   */
  datatype Target = Target(kind: Kind, typeName: string, pointee: Option<Target>)

  /** reflect.Indirect: a pointer's target (the invalid value for a nil pointer), any other value itself. */
  function Indirect(v: Target): (r: Target)
    ensures v.kind != PointerKind ==> r == v
    ensures v.kind == PointerKind && v.pointee.Some? ==> r == v.pointee.value
    ensures v.kind == PointerKind && v.pointee.None? ==> r.kind == InvalidKind
  {
    if v.kind != PointerKind then v
    else if v.pointee.Some? then v.pointee.value
    else Target(InvalidKind, "", None)
  }

  predicate IsSigned(k: Kind)
  {
    k == IntKind || k == Int8Kind || k == Int16Kind || k == Int32Kind || k == Int64Kind
  }

  predicate IsUnsigned(k: Kind)
  {
    k == UintKind || k == Uint8Kind || k == Uint16Kind || k == Uint32Kind || k == Uint64Kind
  }

  const MaxInt64: int := 0x7fff_ffff_ffff_ffff

  /** The width in bits of an integer kind; int and uint are 64 bits wide. */
  function Bits(k: Kind): (r: nat)
    ensures r == 8 || r == 16 || r == 32 || r == 64
  {
    match k
    case Int8Kind => 8
    case Uint8Kind => 8
    case Int16Kind => 16
    case Uint16Kind => 16
    case Int32Kind => 32
    case Uint32Kind => 32
    case _ => 64
  }

  /** 2^n for the four widths, written out. */
  function Pow2(n: nat): (r: int)
    requires n == 7 || n == 8 || n == 15 || n == 16 || n == 31 || n == 32 || n == 63 || n == 64
  {
    if n == 7 then 0x80
    else if n == 8 then 0x100
    else if n == 15 then 0x8000
    else if n == 16 then 0x1_0000
    else if n == 31 then 0x8000_0000
    else if n == 32 then 0x1_0000_0000
    else if n == 63 then 0x8000_0000_0000_0000
    else 0x1_0000_0000_0000_0000
  }

  /** reflect.Value.OverflowInt: i lies outside the range of a signed integer of the kind's width. */
  predicate OverflowInt(k: Kind, i: int)
  {
    !(-Pow2(Bits(k) - 1) <= i < Pow2(Bits(k) - 1))
  }

  /** reflect.Value.OverflowUint: u is at least 2 to the kind's width. */
  predicate OverflowUint(k: Kind, u: int)
  {
    u >= Pow2(Bits(k))
  }

  /** The errors these paths raise; type names are reflect.Type texts. */
  datatype Cause =
    | InvalidTypeError(valueType: string, jsonType: Type)
    | OverflowError(valueType: string, number: Number)
    | FractionalFloatError(valueType: string, number: Number)
    | NegativeUintError(valueType: string, number: Number)

  /** The field path being filled, and the parse-tree node of the value when there is one. */
  datatype UnmarshalState = UnmarshalState(key: seq<string>, node: Option<Node>)

  datatype UnmarshalError = UnmarshalError(cause: Cause, field: seq<string>, loc: Option<Loc>)

  /** unmarshalError: the cause with the current field path and, when known, where the value starts. */
  function MakeError(st: UnmarshalState, e: Cause): (r: UnmarshalError)
    ensures r.cause == e && r.field == st.key
    ensures r.loc.Some? <==> st.node.Some?
    ensures st.node.Some? ==> r.loc.value == st.node.value.start
  {
    UnmarshalError(e, st.key, if st.node.Some? then Some(st.node.value.start) else None)
  }

  /**
   * The float64 operations the float branches use: `>` and `==` on float64, the conversions
   * float64(u) and uint64(f), and reflect.Value.OverflowFloat.
   */
  datatype FloatOps = FloatOps(
    greater: (Float64, Float64) -> bool,
    equal: (Float64, Float64) -> bool,
    fromUint: uint64 -> Float64,
    truncate: Float64 -> uint64,
    overflowFloat: (Kind, Float64) -> bool)

  /** What a successful unmarshal stores into the target. */
  datatype Stored = SetInt(i: int) | SetUint(u: nat) | SetFloat(f: Float64)

  /**
   * looseUint64: an integer-kind number is its magnitude, with no error; a float-kind one
   * goes through the float comparisons.
   */
  function LooseUint64(fo: FloatOps, typeName: string, n: Number): (r: Result<uint64, Cause>)
    ensures !n.IsFloat ==> r == Success(n.Integer)
    ensures r.Failure? ==>
      && n.IsFloat
      && (r.error.OverflowError? || r.error.FractionalFloatError?)
      && r.error.number == n && r.error.valueType == typeName
  {
    if !n.IsFloat then Success(n.Integer)
    else if fo.greater(n.Float, fo.fromUint(MaxInt64 as uint64)) then Failure(OverflowError(typeName, n))
    else
      var u := fo.truncate(n.Float);
      if !fo.equal(n.Float, fo.fromUint(u)) then Failure(FractionalFloatError(typeName, n))
      else Success(u)
  }

  /** Number.float64. */
  function FloatOf(fo: FloatOps, n: Number): Float64
  {
    if !n.IsFloat then fo.fromUint(n.Integer) else n.Float
  }

  /** The signed value a number stands for: its magnitude, negated when the sign flag is set. */
  function SignedValue(n: Number): int
  {
    if n.IsNeg then -(n.Integer as int) else n.Integer as int
  }

  /** The signed branch of Number.unmarshal after looseUint64 has given the magnitude u. */
  function SignedFromMagnitude(st: UnmarshalState, rv: Target, n: Number, u: uint64): (r: Result<Stored, UnmarshalError>)
    ensures r.Success? <==> u as int <= MaxInt64 && !OverflowInt(rv.kind, if n.IsNeg then -(u as int) else u as int)
    ensures r.Success? ==> r.value == SetInt(if n.IsNeg then -(u as int) else u as int)
    ensures r.Failure? ==> r.error == MakeError(st, OverflowError(rv.typeName, n))
  {
    if u as int > MaxInt64 then Failure(MakeError(st, OverflowError(rv.typeName, n)))
    else
      var i := if n.IsNeg then -(u as int) else u as int;
      if OverflowInt(rv.kind, i) then Failure(MakeError(st, OverflowError(rv.typeName, n)))
      else Success(SetInt(i))
  }

  /** The signed branch of Number.unmarshal: looseUint64, then the magnitude and width checks. */
  function SignedBranch(st: UnmarshalState, fo: FloatOps, rv: Target, n: Number): (r: Result<Stored, UnmarshalError>)
    ensures !n.IsFloat ==>
      && (r.Success? <==> n.Integer as int <= MaxInt64 && !OverflowInt(rv.kind, SignedValue(n)))
      && (r.Success? ==> r.value == SetInt(SignedValue(n)))
      && (r.Failure? ==> r.error == MakeError(st, OverflowError(rv.typeName, n)))
    ensures r.Failure? ==> r.error.field == st.key
  {
    match LooseUint64(fo, rv.typeName, n)
    case Failure(e) => Failure(MakeError(st, e))
    case Success(u) => SignedFromMagnitude(st, rv, n, u)
  }

  /** The unsigned branch of Number.unmarshal: the sign first, then looseUint64, then the width. */
  function UnsignedBranch(st: UnmarshalState, fo: FloatOps, rv: Target, n: Number): (r: Result<Stored, UnmarshalError>)
    ensures n.IsNeg ==> r == Failure(MakeError(st, NegativeUintError(rv.typeName, n)))
    ensures !n.IsNeg && !n.IsFloat ==>
      && (r.Success? <==> !OverflowUint(rv.kind, n.Integer as int))
      && (r.Success? ==> r.value == SetUint(n.Integer as nat))
      && (r.Failure? ==> r.error == MakeError(st, OverflowError(rv.typeName, n)))
  {
    if n.IsNeg then Failure(MakeError(st, NegativeUintError(rv.typeName, n)))
    else
      match LooseUint64(fo, rv.typeName, n)
      case Failure(e) => Failure(MakeError(st, e))
      case Success(u) =>
        if OverflowUint(rv.kind, u as int) then Failure(MakeError(st, OverflowError(rv.typeName, n)))
        else Success(SetUint(u as nat))
  }

  /**
   * Number.unmarshal. Into a signed kind an integer-kind number succeeds exactly when its
   * magnitude is at most MaxInt64 and its signed value fits the kind's width; into an
   * unsigned kind a negative number always fails with NegativeUintError, and otherwise the
   * magnitude must fit the width; a kind that holds no number is an InvalidTypeError naming
   * the original value's type. Every error carries the state's field path.
   */
  function UnmarshalNumber(st: UnmarshalState, fo: FloatOps, n: Number, v: Target): (r: Result<Stored, UnmarshalError>)
    ensures var rv := Indirect(v);
      IsSigned(rv.kind) && !n.IsFloat ==>
        && (r.Success? <==> n.Integer as int <= MaxInt64 && !OverflowInt(rv.kind, SignedValue(n)))
        && (r.Success? ==> r.value == SetInt(SignedValue(n)))
        && (r.Failure? ==> r.error == MakeError(st, OverflowError(rv.typeName, n)))
    ensures var rv := Indirect(v);
      IsUnsigned(rv.kind) && n.IsNeg ==> r == Failure(MakeError(st, NegativeUintError(rv.typeName, n)))
    ensures var rv := Indirect(v);
      IsUnsigned(rv.kind) && !n.IsNeg && !n.IsFloat ==>
        && (r.Success? <==> !OverflowUint(rv.kind, n.Integer as int))
        && (r.Success? ==> r.value == SetUint(n.Integer as nat))
    ensures var k := Indirect(v).kind;
      !IsSigned(k) && !IsUnsigned(k) && k != Float32Kind && k != Float64Kind ==>
        r == Failure(MakeError(st, InvalidTypeError(v.typeName, TypeNumber)))
    ensures r.Failure? ==> r.error.field == st.key
  {
    var rv := Indirect(v);
    if IsSigned(rv.kind) then
      SignedBranch(st, fo, rv, n)
    else if IsUnsigned(rv.kind) then
      UnsignedBranch(st, fo, rv, n)
    else if rv.kind == Float32Kind || rv.kind == Float64Kind then
      var f := FloatOf(fo, n);
      if fo.overflowFloat(rv.kind, f) then Failure(MakeError(st, OverflowError(rv.typeName, n)))
      else Success(SetFloat(f))
    else
      Failure(MakeError(st, InvalidTypeError(v.typeName, TypeNumber)))
  }

  /** A value of kind k, addressed through a non-nil pointer as Unmarshal's caller supplies it. */
  function PointerTo(k: Kind, name: string): Target
  {
    Target(PointerKind, "*" + name, Some(Target(k, name, None)))
  }

  /** integer(MaxUint64) fits neither an int32 nor a uint32. */
  lemma IntegerWidthOverflows(st: UnmarshalState, fo: FloatOps)
    ensures UnmarshalNumber(st, fo, IntegerNumber(0xffff_ffff_ffff_ffff), PointerTo(Int32Kind, "int32")).Failure?
    ensures UnmarshalNumber(st, fo, IntegerNumber(0xffff_ffff_ffff_ffff), PointerTo(Uint32Kind, "uint32")).Failure?
  {
    assert Indirect(PointerTo(Int32Kind, "int32")).kind == Int32Kind;
    assert Indirect(PointerTo(Uint32Kind, "uint32")).kind == Uint32Kind;
  }

  /** 1 fits a uint64 and an int64 and is stored as 1. */
  lemma IntegerWidthFits(st: UnmarshalState, fo: FloatOps)
    ensures UnmarshalNumber(st, fo, IntegerNumber(1), PointerTo(Uint64Kind, "uint64")) == Success(SetUint(1))
    ensures UnmarshalNumber(st, fo, IntegerNumber(1), PointerTo(Int64Kind, "int64")) == Success(SetInt(1))
  {
    assert Indirect(PointerTo(Uint64Kind, "uint64")).kind == Uint64Kind;
    assert Indirect(PointerTo(Int64Kind, "int64")).kind == Int64Kind;
  }

  // ---------------------------------------------------------------- the smallest int64

  /**
   * The signed branch as evidently intended: the signed value, computed without wrap-around,
   * must fit the kind's width.
   */
  function SignedFromMagnitudeIntended(st: UnmarshalState, rv: Target, n: Number, u: uint64): (r: Result<Stored, UnmarshalError>)
    requires IsSigned(rv.kind)
    ensures var i := if n.IsNeg then -(u as int) else u as int;
      && (r.Success? <==> -Pow2(Bits(rv.kind) - 1) <= i < Pow2(Bits(rv.kind) - 1))
      && (r.Success? ==> r.value == SetInt(i))
      && (r.Failure? ==> r.error == MakeError(st, OverflowError(rv.typeName, n)))
  {
    var i := if n.IsNeg then -(u as int) else u as int;
    if OverflowInt(rv.kind, i) then Failure(MakeError(st, OverflowError(rv.typeName, n)))
    else Success(SetInt(i))
  }

  /** Number.unmarshal with the intended signed branch; the other kinds are unchanged. */
  function UnmarshalNumberIntended(st: UnmarshalState, fo: FloatOps, n: Number, v: Target): (r: Result<Stored, UnmarshalError>)
    ensures var rv := Indirect(v);
      IsSigned(rv.kind) && !n.IsFloat ==>
        && (r.Success? <==> !OverflowInt(rv.kind, SignedValue(n)))
        && (r.Success? ==> r.value == SetInt(SignedValue(n)))
    ensures !IsSigned(Indirect(v).kind) ==> r == UnmarshalNumber(st, fo, n, v)
  {
    var rv := Indirect(v);
    if IsSigned(rv.kind) then
      match LooseUint64(fo, rv.typeName, n)
      case Failure(e) => Failure(MakeError(st, e))
      case Success(u) => SignedFromMagnitudeIntended(st, rv, n, u)
    else UnmarshalNumber(st, fo, n, v)
  }

  /**
   * The check `u > MaxInt64` runs before the sign is applied, so -2^63, the smallest int64,
   * is rejected as an overflow although it fits; the intended branch stores it.
   */
  lemma SmallestInt64Rejected(st: UnmarshalState, fo: FloatOps)
    ensures var n := Number(0, 0x8000_0000_0000_0000, false, true);
      && var v := PointerTo(Int64Kind, "int64");
      && SignedValue(n) == -0x8000_0000_0000_0000
      && !OverflowInt(Int64Kind, SignedValue(n))
      && UnmarshalNumber(st, fo, n, v) == Failure(MakeError(st, OverflowError("int64", n)))
      && UnmarshalNumberIntended(st, fo, n, v) == Success(SetInt(-0x8000_0000_0000_0000))
  {
  }

  /** The two signed branches differ on exactly one magnitude: 2^63 with the sign flag set, into a 64-bit kind. */
  lemma SignedBranchesDifferOnlyThere(st: UnmarshalState, rv: Target, n: Number, u: uint64)
    requires IsSigned(rv.kind)
    ensures SignedFromMagnitude(st, rv, n, u) != SignedFromMagnitudeIntended(st, rv, n, u)
      <==> u as int == MaxInt64 + 1 && n.IsNeg && Bits(rv.kind) == 64
  {
  }

  // ---------------------------------------------------------------- null

  /** The kinds Null.unmarshal accepts: pointer, slice, array, map and interface. */
  predicate AcceptsNull(k: Kind)
  {
    k == PointerKind || k == SliceKind || k == ArrayKind || k == MapKind || k == InterfaceKind
  }

  /**
   * Null.unmarshal: no error exactly for the accepting kinds (looked at on the value itself,
   * not through a pointer); otherwise an InvalidTypeError carrying the type and TypeNull.
   */
  function UnmarshalNull(st: UnmarshalState, v: Target): (r: Option<UnmarshalError>)
    ensures r.None? <==> AcceptsNull(v.kind)
    ensures r.Some? ==> r.value == MakeError(st, InvalidTypeError(v.typeName, TypeNull))
  {
    match v.kind
    case PointerKind => None
    case SliceKind => None
    case ArrayKind => None
    case MapKind => None
    case InterfaceKind => None
    case _ => Some(MakeError(st, InvalidTypeError(v.typeName, TypeNull)))
  }

  // ---------------------------------------------------------------- error text

  /** The characters of ASCII bytes. */
  function Chars(b: seq<byte>): (r: string)
    ensures |r| == |b| && forall i :: 0 <= i < |b| ==> r[i] as int == b[i] as int
  {
    seq(|b|, i requires 0 <= i < |b| => b[i] as int as char)
  }

  /** %d of an int. */
  function IntText(i: int): (r: string)
    ensures |r| > 0 && (r[0] == '-' <==> i < 0)
  {
    if i < 0 then "-" + Chars(DecimalDigits(-i)) else Chars(DecimalDigits(i))
  }

  /** locString: "row:col". */
  function LocText(l: Loc): string
  {
    IntText(l.Row) + ":" + IntText(l.Col)
  }

  /** The Error() text of each cause; a number is shown as the serializer writes it. */
  function CauseText(c: Formatters, e: Cause): string
  {
    match e
    case InvalidTypeError(t, jt) => "invalid go type " + t + " for json value of type " + TypeName(jt)
    case OverflowError(t, n) =>
      "number " + Chars(NumberText(c, n)) + " cannot be represented by go type " + t + " as it is would overflow"
    case FractionalFloatError(t, n) =>
      "number " + Chars(NumberText(c, n)) + " cannot be represented by go type " + t + " as it has a fractional part"
    case NegativeUintError(t, n) =>
      "number " + Chars(NumberText(c, n)) + " cannot be represented by go type " + t + " as it is negative"
  }

  const ErrorHead: string := "unmarshal error"

  /** " " and the field path joined by '.', when there is a path. */
  function FieldPart(ue: UnmarshalError): (r: string)
    ensures r == [] <==> ue.field == []
  {
    if |ue.field| > 0 then " " + Join(ue.field, ".") else ""
  }

  /** " row:col", when there is a location. */
  function LocPart(ue: UnmarshalError): (r: string)
    ensures r == [] <==> ue.loc.None?
  {
    if ue.loc.Some? then " " + LocText(ue.loc.value) else ""
  }

  /** The text UnmarshalError.Error builds from its parts, given the cause's own text. */
  function ErrorText(ue: UnmarshalError, cause: string): string
  {
    ErrorHead + FieldPart(ue) + LocPart(ue) + (": " + cause)
  }

  /** UnmarshalError.Error: the builder's writes in order. */
  method Error(c: Formatters, ue: UnmarshalError) returns (text: string)
    ensures text == ErrorText(ue, CauseText(c, ue.cause))
  {
    var sb := ErrorHead;
    if |ue.field| > 0 {
      sb := sb + " ";
      AppendAssoc(sb, " ", Join(ue.field, "."));
      sb := sb + Join(ue.field, ".");
    }
    assert sb == ErrorHead + FieldPart(ue);
    ghost var withField := sb;
    if ue.loc.Some? {
      sb := sb + " ";
      AppendAssoc(withField, " ", LocText(ue.loc.value));
      sb := sb + LocText(ue.loc.value);
    }
    assert sb == ErrorHead + FieldPart(ue) + LocPart(ue);
    var cause := CauseText(c, ue.cause);
    AppendAssoc(sb, ": ", cause);
    sb := sb + ": ";
    sb := sb + cause;
    text := sb;
  }

  lemma ErrorTextSplit(ue: UnmarshalError, cause: string)
    ensures ErrorText(ue, cause) == ErrorHead + (FieldPart(ue) + LocPart(ue) + (": " + cause))
  {
    AppendAssoc(ErrorHead, FieldPart(ue), LocPart(ue));
    AppendAssoc(ErrorHead, FieldPart(ue) + LocPart(ue), ": " + cause);
  }

  /**
   * The text starts with "unmarshal error" and ends with ": " and the cause; with neither
   * field path nor location, nothing else is in between.
   */
  lemma ErrorTextParts(ue: UnmarshalError, cause: string)
    ensures var t := ErrorText(ue, cause);
      && |t| >= 17 + |cause|
      && t[..15] == ErrorHead
      && t[|t| - |cause| - 2..] == ": " + cause
      && (ue.field == [] && ue.loc.None? ==> t == ErrorHead + ": " + cause)
  {
    ErrorTextSplit(ue, cause);
    assert |ErrorHead| == 15;
  }

  lemma Regroup<T>(a: seq<T>, s: seq<T>, p: seq<T>, l: seq<T>, c: seq<T>)
    ensures a + (s + p) + l + c == (a + s) + (p + (l + c))
  {
    AppendAssoc(a, s, p);
    AppendAssoc(a + s, p, l);
    AppendAssoc(a + s + p, l, c);
    AppendAssoc(a + s, p + l, c);
    AppendAssoc(p, l, c);
  }

  /** In h + (x + y), x sits right after h. */
  lemma Window<T>(h: seq<T>, x: seq<T>, y: seq<T>)
    ensures (h + (x + y))[|h|..|h| + |x|] == x
  {
  }

  /** After a 15-character head, " " + path puts the space at 15 and the path from 16 on. */
  lemma FieldWindow(h: string, path: string, l: string, c: string)
    requires |h| == 15
    ensures var t := h + (" " + path) + l + c;
      |t| >= 16 + |path| && t[15] == ' ' && t[16..16 + |path|] == path
  {
    Regroup(h, " ", path, l, c);
    var head := h + " ";
    assert head[15] == ' ';
    Window(head, path, l + c);
  }

  /** A non-empty field path follows the head after one space, its names joined by '.'. */
  lemma ErrorTextField(ue: UnmarshalError, cause: string)
    requires ue.field != []
    ensures var t := ErrorText(ue, cause); var path := Join(ue.field, ".");
      |t| >= 16 + |path| && t[15] == ' ' && t[16..16 + |path|] == path
  {
    assert FieldPart(ue) == " " + Join(ue.field, ".");
    assert |ErrorHead| == 15;
    FieldWindow(ErrorHead, Join(ue.field, "."), LocPart(ue), ": " + cause);
  }
}
