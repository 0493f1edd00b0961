/** The CBOR data model the decoder walks (`serde_cbor::Value`). Decoding
    CBOR bytes into a `Value` is a foreign library call and is not modelled:
    callers receive the decoder as a function value. */
module Cbor {
  import opened Integers
  import opened Wrappers

  /** Map keys. The decoder only ever looks keys up by integer label, so
      scalar keys are enough; a key of any other shape is never found. */
  datatype Key = IntKey(number: int) | TextKey(text: string) | BytesKey(bytes: seq<U8>)

  datatype Value =
    | Null
    | Bool(b: bool)
    /** serde_cbor keeps integers as i128; here they are unbounded. */
    | Integer(i: int)
    | Bytes(bytes: seq<U8>)
    | Text(text: string)
    | Array(items: seq<Value>)
    | Map(entries: map<Key, Value>)

  /** `map.get(&Value::Integer(n))` */
  function Lookup(m: map<Key, Value>, n: int): (r: Option<Value>)
    ensures r.Some? <==> IntKey(n) in m
    ensures r.Some? ==> r.value == m[IntKey(n)]
  {
    if IntKey(n) in m then Some(m[IntKey(n)]) else None
  }
}
