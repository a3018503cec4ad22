/**
 * An already-parsed JSON document. The streaming cursor of the source (`beginObject`,
 * `selectName`, `skipValue`, `peekJson`) walks exactly this tree; the look-ahead cursor
 * becomes a second reading of the same immutable value.
 */
module Json {
  import opened Wrappers

  /** A JSON value; a number keeps both its literal text and its numeric value. */
  datatype JValue =
    | JNull
    | JBool(b: bool)
    | JNum(text: string, num: real)
    | JStr(s: string)
    | JArr(items: seq<JValue>)
    | JObj(members: seq<Member>)

  /** One `name: value` pair of an object, in document order; names may repeat. */
  datatype Member = Member(key: string, value: JValue)

  /** What `JsonReader.peek()` reports at the start of a value. */
  datatype Token = NullToken | BooleanToken | NumberToken | StringToken | BeginArray | BeginObject

  function PeekToken(v: JValue): Token {
    match v
    case JNull => NullToken
    case JBool(_) => BooleanToken
    case JNum(_, _) => NumberToken
    case JStr(_) => StringToken
    case JArr(_) => BeginArray
    case JObj(_) => BeginObject
  }

  /** The values stored under name `k`, in document order. */
  function Occurrences(ms: seq<Member>, k: string): (vs: seq<JValue>)
    ensures |vs| <= |ms|
    ensures forall v :: v in vs <==> Member(k, v) in ms
    ensures vs == [] <==> forall m :: m in ms ==> m.key != k
  {
    if |ms| == 0 then []
    else
      assert ms == [ms[0]] + ms[1..];
      if ms[0].key == k then [ms[0].value] + Occurrences(ms[1..], k)
      else Occurrences(ms[1..], k)
  }

  /** The value of the first member named `k`, as a single-name `selectName` scan finds it. */
  function FirstOccurrence(ms: seq<Member>, k: string): (r: Option<JValue>)
    ensures r.None? <==> Occurrences(ms, k) == []
    ensures r.Some? ==> r.value == Occurrences(ms, k)[0]
  {
    if |ms| == 0 then None
    else if ms[0].key == k then Some(ms[0].value)
    else FirstOccurrence(ms[1..], k)
  }
}
