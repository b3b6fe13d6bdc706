/** JSON values and an abstract text codec. Lexing and printing are not
    modelled: `Codec` stands for `json.dumps` followed by UTF-8 encoding and
    for UTF-8 decoding followed by `json.loads`, and `LawfulCodec` states that
    loading what was dumped gives the same value back. */
module Json {
  import opened Wrappers
  import opened Bytes

  datatype Value =
    | JNull
    | JBool(b: bool)
    | JNumber(n: int)
    | JString(s: string)
    | JArray(items: seq<Value>)
    | JObject(fields: map<string, Value>)

  datatype Codec = Codec(
    dumps: Value -> seq<byte>,
    /** `None` when the bytes are not valid JSON text. */
    loads: seq<byte> -> Option<Value>)

  ghost predicate LawfulCodec(codec: Codec)
  {
    forall v :: codec.loads(codec.dumps(v)) == Some(v)
  }
}
