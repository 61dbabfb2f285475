/** The value codec of RedisCache: `encode` wraps a value in a one-element
    JSON array (undefined becomes null), `decode` unwraps it and reads an
    absent, empty or unparseable entry as a miss. JSON text is kept abstract:
    an entry is either a well-formed array or text the parser rejects. */
module Codec {

  datatype Option<T> = None | Some(value: T)

  /** A JavaScript value as it passes through the cache: `undefined`
      (the miss marker), `null`, or a JSON scalar. */
  datatype Value = Undefined | Null | Bool(b: bool) | Num(n: int) | Str(s: string)

  /** The values JSON can carry: everything but `undefined`. */
  type Defined = v: Value | !v.Undefined? witness Null

  /** A stored entry: the text of a JSON array, by its elements, or text that
      `JSON.parse` or the array destructuring rejects (the empty text among them). */
  datatype Encoded = Wrapped(items: seq<Defined>) | Garbage(text: string)

  /** `undefined` is stored as `null`; every other value as itself. */
  function Normalize(v: Value): (d: Defined)
    ensures v != Undefined ==> d == v
    ensures d == Null <==> v == Null || v == Undefined
  {
    if v.Undefined? then Null else v
  }

  /** `encode`: the value, normalised, as the only element of an array.
      Whatever is encoded reads back as a defined value. */
  function Encode(v: Value): (e: Encoded)
    ensures Decode(Some(e)) == Normalize(v)
    ensures Decode(Some(e)) != Undefined
  {
    Wrapped([Normalize(v)])
  }

  /** `decode`: the first element of a stored array; `undefined` for an
      absent entry, for text that does not parse and for an empty array.
      Decoding never fails: a corrupt entry is a miss. */
  function Decode(raw: Option<Encoded>): (v: Value)
    ensures v == Undefined <==> raw.None? || raw.value.Garbage? || raw.value.items == []
    ensures v != Undefined ==> v == raw.value.items[0]
  {
    match raw
    case None => Undefined
    case Some(Garbage(_)) => Undefined
    case Some(Wrapped(items)) => if |items| == 0 then Undefined else items[0]
  }

  /** Every defined value survives a round trip through the store. */
  lemma DecodeEncode(v: Value)
    requires v != Undefined
    ensures Decode(Some(Encode(v))) == v
  {
  }

  /** `undefined` is cached as `null`, so it reads back as a hit. */
  lemma DecodeEncodeUndefined()
    ensures Decode(Some(Encode(Undefined))) == Null
  {
  }
}
