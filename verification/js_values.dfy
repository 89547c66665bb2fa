/** Untyped values as the client receives them from the server, with the
    JavaScript notions the mappers rely on: truthiness, `typeof`, `??` and
    property enumeration. Objects list their properties in enumeration
    order. */
module JsValues {

  datatype Json =
    | Undefined
    | Null
    | Bool(b: bool)
    | Num(n: real)
    | Str(s: string)
    | Arr(elems: seq<Json>)
    | Obj(fields: seq<(string, Json)>)

  /** JavaScript truthiness: `undefined`, `null`, `false`, `0` and `""` are
      falsy, everything else (objects and arrays included) is truthy. */
  predicate Truthy(v: Json)
    ensures v.Undefined? || v.Null? ==> !Truthy(v)
    ensures v.Str? ==> (Truthy(v) <==> |v.s| > 0)
    ensures v.Num? ==> (Truthy(v) <==> v.n != 0.0)
    ensures v.Arr? || v.Obj? ==> Truthy(v)
  {
    !(v.Undefined? || v.Null? || v == Bool(false) || v == Num(0.0) || v == Str(""))
  }

  /** `v && typeof v === 'object'`: an array or an object, `null` excluded. */
  predicate IsObject(v: Json)
    ensures IsObject(v) ==> Truthy(v)
    ensures v.Null? ==> !IsObject(v)
  {
    v.Arr? || v.Obj?
  }

  /** `v ?? d`: only `null` and `undefined` are replaced. */
  function Coalesce(v: Json, d: Json): (r: Json)
    ensures v.Undefined? || v.Null? ==> r == d
    ensures !(v.Undefined? || v.Null?) ==> r == v
  {
    if v.Undefined? || v.Null? then d else v
  }

  function Digit(d: nat): char
    requires d < 10
  {
    "0123456789"[d]
  }

  /** Decimal rendering of an array index, as `for...in` yields it. */
  function NatToString(n: nat): (s: string)
    ensures |s| > 0
    ensures forall i :: 0 <= i < |s| ==> '0' <= s[i] <= '9'
  {
    if n < 10 then [Digit(n)] else NatToString(n / 10) + [Digit(n % 10)]
  }

  /** The value of the first property named `key`, `undefined` if none. */
  function Lookup(fields: seq<(string, Json)>, key: string): (r: Json)
    ensures (forall i :: 0 <= i < |fields| ==> fields[i].0 != key) ==> r == Undefined
    ensures |fields| > 0 && fields[0].0 == key ==> r == fields[0].1
  {
    if |fields| == 0 then Undefined
    else if fields[0].0 == key then fields[0].1
    else Lookup(fields[1..], key)
  }

  /** The property `key` of a value: looked up in an object; the named
      properties the mappers read are never defined on arrays or
      primitives. */
  function Get(v: Json, key: string): (r: Json)
    ensures !v.Obj? ==> r == Undefined
  {
    if v.Obj? then Lookup(v.fields, key) else Undefined
  }

  /** The `(key, value)` pairs `for...in` visits: an object's properties in
      order, an array's elements under their decimal indices, nothing for a
      primitive. */
  function Members(v: Json): (ms: seq<(string, Json)>)
    ensures v.Obj? ==> ms == v.fields
    ensures v.Arr? ==> |ms| == |v.elems| && forall i :: 0 <= i < |ms| ==> ms[i] == (NatToString(i), v.elems[i])
    ensures !IsObject(v) ==> ms == []
  {
    match v
    case Obj(fs) => fs
    case Arr(es) => seq(|es|, i requires 0 <= i < |es| => (NatToString(i), es[i]))
    case _ => []
  }
}
