/** Decoded JSON values, the Python operations the modelled code applies to
    them (truthiness, `v[key]`, `key in v`, `v.get(key, default)`), and
    `json.dumps`/`json.loads` as an abstract serializer with its laws. */
module Json {
  import opened Common

  /** A decoded JSON document. Numbers are integers: the modelled code only
      stores identifiers and codes in them. */
  datatype Value =
    | Null
    | Bool(b: bool)
    | Number(n: int)
    | Str(s: string)
    | Array(items: seq<Value>)
    | Object(fields: map<string, Value>)

  /** Python truthiness of a decoded value (`if v:`). */
  predicate Truthy(v: Value)
  {
    match v
    case Null => false
    case Bool(b) => b
    case Number(n) => n != 0
    case Str(s) => s != []
    case Array(items) => items != []
    case Object(fields) => fields != map[]
  }

  /** `v[key]` for a string key: a KeyError on a mapping without the key, a
      TypeError on anything that is not a mapping. */
  function Subscript(v: Value, key: string): (r: Result<Value, Exception>)
    ensures r.Success? <==> v.Object? && key in v.fields
    ensures r.Success? ==> r.value == v.fields[key]
    ensures r.Failure? ==> r.error == (if v.Object? then KeyError else TypeError)
  {
    if !v.Object? then Failure(TypeError)
    else if key in v.fields then Success(v.fields[key])
    else Failure(KeyError)
  }

  /** `key in v`: key membership for a mapping, element membership for a list,
      substring test for a string, a TypeError for anything else. */
  function Contains(v: Value, key: string): (r: Result<bool, Exception>)
    ensures r.Failure? <==> !(v.Object? || v.Array? || v.Str?)
    ensures r == Success(true) <==>
              || (v.Object? && key in v.fields)
              || (v.Array? && Str(key) in v.items)
              || (v.Str? && IsSubstring(key, v.s))
  {
    match v
    case Object(fields) => Success(key in fields)
    case Array(items) => Success(Str(key) in items)
    case Str(s) => Success(IsSubstring(key, s))
    case _ => Failure(TypeError)
  }

  /** `fields.get(key, default)` on a mapping. */
  function Get(fields: map<string, Value>, key: string, default: Value): (r: Value)
    ensures key in fields ==> r == fields[key]
    ensures key !in fields ==> r == default
  {
    if key in fields then fields[key] else default
  }

  /** `json.dumps` and `json.loads` on byte strings. They are not modelled
      character by character; the model relies only on the laws below. */
  datatype Serializer = Serializer(dumps: Value -> seq<byte>, loads: seq<byte> -> Option<Value>)

  /** What the model needs of the serializer: loading what was dumped gives the
      value back, and a dump never holds a raw NUL byte (json.dumps escapes
      control characters as `\u0000`). */
  ghost predicate Lawful(ser: Serializer)
  {
    && (forall v :: ser.loads(ser.dumps(v)) == Some(v))
    && (forall v :: 0 !in ser.dumps(v))
  }
}
