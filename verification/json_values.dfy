/** The JSON values of server/json_spirit/json_spirit_value.h, without reals. */
module JsonValues {
  import opened Utf8

  type int64 = i: int | -0x8000_0000_0000_0000 <= i < 0x8000_0000_0000_0000
  type uint64 = u: int | 0 <= u < 0x1_0000_0000_0000_0000

  /** An object is a vector of pairs: it keeps the order of its members and equal names. */
  datatype Member = Member(name: seq<byte>, value: Value)

  datatype Value =
    | Object(members: seq<Member>)
    | Array(elements: seq<Value>)
    | Str(text: seq<byte>)
    | Bool(b: bool)
    | Int64(i: int64)
    | Uint64(u: uint64)
    | Null

  datatype ValueType = ObjType | ArrayType | StrType | BoolType | IntType | NullType

  /** `type()`: both integer variants count as int_type. */
  function TypeOf(v: Value): ValueType {
    match v
    case Object(_) => ObjType
    case Array(_) => ArrayType
    case Str(_) => StrType
    case Bool(_) => BoolType
    case Int64(_) => IntType
    case Uint64(_) => IntType
    case Null => NullType
  }

  predicate IsComposite(v: Value) {
    TypeOf(v) in {ObjType, ArrayType}
  }

  /** `get_int64()` on an integer value: a large unsigned value is cast, so it wraps around. */
  function GetInt64(v: Value): int64
    requires TypeOf(v) == IntType
  {
    if v.Int64? then v.i
    else if v.u < 0x8000_0000_0000_0000 then v.u
    else var wrapped: int := v.u; wrapped - 0x1_0000_0000_0000_0000
  }

  /** `get_uint64()`: a negative value wraps around. */
  function GetUint64(v: Value): uint64
    requires TypeOf(v) == IntType
  {
    if v.Uint64? then v.u
    else if v.i >= 0 then v.i
    else var wrapped: int := v.i; wrapped + 0x1_0000_0000_0000_0000
  }

  /** The two accessors lose nothing: each casts back what the other one gave. */
  lemma IntegerCasts(v: Value)
    requires TypeOf(v) == IntType
    ensures GetUint64(Int64(GetInt64(v))) == GetUint64(v)
    ensures GetInt64(Uint64(GetUint64(v))) == GetInt64(v)
    ensures (v.Uint64? ==> GetUint64(v) == v.u) && (v.Int64? ==> GetInt64(v) == v.i)
  {
  }
}
