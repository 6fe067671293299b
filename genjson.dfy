/** The value model of genjson.go: the JSON type tags and the tagged union of values. */
module GenJson {

  newtype byte = x: int | 0 <= x < 0x100

  newtype uint64 = x: int | 0 <= x < 0x1_0000_0000_0000_0000

  /** A float64, kept as its IEEE-754 bit pattern: the model never computes with floats. */
  type Float64 = bv64

  /** `type Type int8` with its six constants. */
  newtype Type = x: int | -0x80 <= x < 0x80

  const TypeNull: Type := 0
  const TypeBool: Type := 1
  const TypeNumber: Type := 2
  const TypeString: Type := 3
  const TypeArray: Type := 4
  const TypeObject: Type := 5

  /** Type.String: the name of each of the six constants, and "" for any other value. */
  function TypeName(t: Type): (s: string)
    ensures s != "" <==> TypeNull <= t <= TypeObject
  {
    if t == TypeNull then "null"
    else if t == TypeBool then "bool"
    else if t == TypeNumber then "number"
    else if t == TypeString then "string"
    else if t == TypeArray then "array"
    else if t == TypeObject then "object"
    else ""
  }

  /** Distinct type constants have distinct names. */
  lemma TypeNamesDistinct(t: Type, u: Type)
    requires TypeNull <= t <= TypeObject && TypeNull <= u <= TypeObject
    requires TypeName(t) == TypeName(u)
    ensures t == u
  {
  }

  /**
   * Number: a float magnitude, an unsigned integer magnitude, which of the two is meant,
   * and a separate sign flag.
   */
  datatype Number = Number(Float: Float64, Integer: uint64, IsFloat: bool, IsNeg: bool)

  /** integer(i): an integer-kind, non-negative number. */
  function IntegerNumber(i: uint64): (n: Number)
    ensures !n.IsFloat && !n.IsNeg && n.Integer == i
  {
    Number(0, i, false, false)
  }

  /** float(f): a float-kind, non-negative number. */
  function FloatNumber(f: Float64): (n: Number)
    ensures n.IsFloat && !n.IsNeg && n.Float == f
  {
    Number(f, 0, true, false)
  }

  /** Value: the six JSON variants. An object is the sequence of its (key, value) members in iteration order. */
  datatype Value =
    | NullValue
    | BoolValue(b: bool)
    | NumberValue(n: Number)
    | StringValue(s: string)
    | ArrayValue(elems: seq<Value>)
    | ObjectValue(members: seq<Member>)

  datatype Member = Member(key: string, value: Value)
}
