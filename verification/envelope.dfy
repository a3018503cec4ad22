/**
 * The response-envelope converter: one JSON object with the names `status`,
 * `message`, `data` and `errors` in any order. A look-ahead pass reads `status`
 * and `message`; `status == "0x000"` selects the success branch, where `data` is
 * decoded under the call site's mode; any other status ends in a server failure
 * carrying the `errors` payload shaped by at most one error annotation.
 */
module Envelope {
  import opened Wrappers
  import opened Lists
  import opened Json
  import opened Numeric

  const SuccessStatus: string := "0x000"
  const StatusKey: string := "status"
  const DataKey: string := "data"
  const ErrorsKey: string := "errors"
  const MessageKey: string := "message"

  /**
   * The statically declared type a payload is decoded as. `TDouble` .. `TChar` stand for
   * the eight JVM primitive classes (`Int::class.java` and so on); every other class, the
   * boxed `java.lang.Integer` included, is a `TClass`.
   */
  datatype Target =
    | TDouble
    | TLong
    | TInt
    | TFloat
    | TShort
    | TBoolean
    | TByte
    | TChar
    | TList(element: Target)
    | TClass(name: string)

  /** The call site's return shape: `Empty`, `Nullable<T>`, a raw `Nullable`, or a plain `T`. */
  datatype Mode = Ignored | Optional(target: Target) | OptionalRaw | Required(target: Target)

  /** The annotations on a call site; only the first three describe the `errors` payload. */
  datatype Annotation =
    | PrimitiveError(clazz: Target)
    | ObjectError(clazz: Target)
    | ArrayError(clazz: Target)
    | OtherAnnotation(name: string)

  /** A decoded payload: what `parse` returns as `Any?`, with `A` for adapter-built objects. */
  datatype Value<+A> =
    | VNull
    | VString(s: string)
    | VBool(b: bool)
    | VDouble(d: real)
    | VLong(l: int)
    | VInt(i: int)
    | VFloat(f: real)
    | VShort(h: int)
    | VAdapted(adapted: A)

  /** A successful conversion: the `Empty` marker, a `Nullable` wrapper, or the plain value. */
  datatype Converted<+A> = EmptyMarker | NullableOf(data: Value<A>) | Plain(value: Value<A>)

  /** Why a `JsonDataException` was raised. */
  datatype DataReason =
    | NotAnObject
    | ExpectedString(key: string, found: Token)
    | MissingStatus
    | MissingMessage
    | DataNotNullable
    | AdapterFailed(detail: string)

  /** Why an `IllegalArgumentException` was raised. */
  datatype ArgReason = RawNullable | SeveralErrorAnnotations | PrimitiveListElement

  datatype ConvertError<+A> =
    | DataError(reason: DataReason)
    | IllegalArgument(arg: ArgReason)
    | ServerFailure(status: string, message: string, errorData: Value<A>)

  /** The per-type decoder Moshi supplies for object and array payloads; it may return null. */
  type Adapter<!A> = (Target, JValue) -> Result<Option<A>, string>

  /** The header captured by the look-ahead pass. */
  datatype Header = Header(status: Option<string>, message: Option<string>)

  // ---------------------------------------------------------------------------
  // Payload decoding

  /** Narrows a number token according to the declared target type. */
  function Narrow<A>(n: real, t: Target): (r: Value<A>)
    ensures t == TInt ==> r.VInt? && INT_MIN <= r.i <= INT_MAX
    ensures t == TInt && INT_MIN <= Truncate(n) <= INT_MAX ==> r == VInt(Truncate(n))
    ensures t == TLong ==> r.VLong? && LONG_MIN <= r.l <= LONG_MAX
    ensures t == TLong && LONG_MIN <= Truncate(n) <= LONG_MAX ==> r == VLong(Truncate(n))
    ensures t == TShort ==> r.VShort? && SHORT_MIN <= r.h <= SHORT_MAX
    ensures t == TShort ==> (r.h - DoubleToInt(n)) % SHORT_MODULUS == 0
    ensures t == TShort && INT_MIN <= Truncate(n) <= INT_MAX ==> (r.h - Truncate(n)) % SHORT_MODULUS == 0
    ensures t == TFloat ==> r == VFloat(n)
    ensures t == TDouble || t == TBoolean || t == TByte || t == TChar || t.TList? || t.TClass? ==> r == VDouble(n)
  {
    match t
    case TDouble => VDouble(n)
    case TLong => VLong(DoubleToLong(n))
    case TInt => VInt(DoubleToInt(n))
    case TFloat => VFloat(n)
    case TShort => VShort(DoubleToShort(n))
    case _ => VDouble(n)
  }

  /** Decodes the value at the target name, dispatching on its token. */
  function DecodeValue<A>(v: JValue, t: Target, adapter: Adapter<A>): (r: Result<Value<A>, DataReason>)
    ensures v == JNull ==> r == Ok(VNull)
    ensures !(v.JObj? || v.JArr?) ==> r.Ok? && (r.value == VNull <==> v == JNull)
    ensures (v.JObj? || v.JArr?) ==> (r.Ok? <==> adapter(t, v).Ok?)
    ensures (v.JObj? || v.JArr?) ==> (r == Ok(VNull) <==> adapter(t, v) == Ok(None))
    ensures (v.JObj? || v.JArr?) && r.Ok? && r.value != VNull ==> r.value.VAdapted? && adapter(t, v) == Ok(Some(r.value.adapted))
    ensures r.Err? ==> (v.JObj? || v.JArr?) && r.error == AdapterFailed(adapter(t, v).error)
    ensures v.JStr? ==> r == Ok(VString(v.s))
    ensures v.JBool? ==> r == Ok(VBool(v.b))
    ensures v.JNum? ==> r == Ok(Narrow(v.num, t))
  {
    match v
    case JObj(_) | JArr(_) =>
      (match adapter(t, v)
       case Ok(None) => Ok(VNull)
       case Ok(Some(a)) => Ok(VAdapted(a))
       case Err(m) => Err(AdapterFailed(m)))
    case JStr(s) => Ok(VString(s))
    case JNum(_, n) => Ok(Narrow(n, t))
    case JBool(b) => Ok(VBool(b))
    case JNull => Ok(VNull)
  }

  /**
   * The `parse` loop: walks every member, decodes each one named `key` (so a later
   * occurrence overwrites an earlier one) and skips every other member.
   */
  function ParseFrom<A>(ms: seq<Member>, key: string, t: Target, adapter: Adapter<A>, acc: Value<A>)
    : Result<Value<A>, DataReason>
    decreases |ms|
  {
    if |ms| == 0 then Ok(acc)
    else if ms[0].key == key then
      match DecodeValue(ms[0].value, t, adapter)
      case Err(e) => Err(e)
      case Ok(x) => ParseFrom(ms[1..], key, t, adapter, x)
    else ParseFrom(ms[1..], key, t, adapter, acc)
  }

  /** `parse`: the scan from a null payload; it agrees with the reference reading of the values under `key`. */
  function Parse<A>(ms: seq<Member>, key: string, t: Target, adapter: Adapter<A>): (r: Result<Value<A>, DataReason>)
    ensures r == DecodeEach(Occurrences(ms, key), t, adapter, VNull)
    ensures Occurrences(ms, key) == [] ==> r == Ok(VNull)
  {
    ParseSeesOnlyKey(ms, key, t, adapter, VNull);
    ParseFrom(ms, key, t, adapter, VNull)
  }

  /** Reference reading of a payload: decode the values in order, keep the last, stop at a failure. */
  function DecodeEach<A>(vs: seq<JValue>, t: Target, adapter: Adapter<A>, acc: Value<A>)
    : Result<Value<A>, DataReason>
    decreases |vs|
  {
    if |vs| == 0 then Ok(acc)
    else
      match DecodeValue(vs[0], t, adapter)
      case Err(e) => Err(e)
      case Ok(x) => DecodeEach(vs[1..], t, adapter, x)
  }

  ghost predicate AllDecode<A>(vs: seq<JValue>, t: Target, adapter: Adapter<A>) {
    forall i :: 0 <= i < |vs| ==> DecodeValue(vs[i], t, adapter).Ok?
  }

  /** The payload at `key` when every occurrence decodes: the last one, or null when there is none. */
  ghost function PayloadOf<A>(ms: seq<Member>, key: string, t: Target, adapter: Adapter<A>): Value<A>
    requires AllDecode(Occurrences(ms, key), t, adapter)
  {
    var vs := Occurrences(ms, key);
    if |vs| == 0 then VNull else DecodeValue(Last(vs), t, adapter).value
  }

  /** The member scan sees only the values stored under its target name. */
  lemma {:induction false} ParseSeesOnlyKey<A>(ms: seq<Member>, key: string, t: Target, adapter: Adapter<A>, acc: Value<A>)
    ensures ParseFrom(ms, key, t, adapter, acc) == DecodeEach(Occurrences(ms, key), t, adapter, acc)
    decreases |ms|
  {
    if |ms| > 0 {
      if ms[0].key == key {
        var vs := Occurrences(ms, key);
        assert vs == [ms[0].value] + Occurrences(ms[1..], key);
        assert vs[1..] == Occurrences(ms[1..], key);
        match DecodeValue(ms[0].value, t, adapter)
        case Err(e) =>
        case Ok(x) => ParseSeesOnlyKey(ms[1..], key, t, adapter, x);
      } else {
        ParseSeesOnlyKey(ms[1..], key, t, adapter, acc);
      }
    }
  }

  /** Decoding a run of values yields the last one when all decode, and fails otherwise. */
  lemma {:induction false} DecodeEachKeepsLast<A>(vs: seq<JValue>, t: Target, adapter: Adapter<A>, acc: Value<A>)
    ensures AllDecode(vs, t, adapter) ==>
              DecodeEach(vs, t, adapter, acc) == Ok(if |vs| == 0 then acc else DecodeValue(Last(vs), t, adapter).value)
    ensures !AllDecode(vs, t, adapter) ==> DecodeEach(vs, t, adapter, acc).Err?
    ensures DecodeEach(vs, t, adapter, acc).Err? ==>
              exists v :: v in vs && DecodeValue(v, t, adapter) == Err(DecodeEach(vs, t, adapter, acc).error)
    decreases |vs|
  {
    if |vs| > 0 {
      match DecodeValue(vs[0], t, adapter)
      case Err(e) =>
        assert vs[0] in vs;
      case Ok(x) =>
        DecodeEachKeepsLast(vs[1..], t, adapter, x);
        assert AllDecode(vs, t, adapter) <==> AllDecode(vs[1..], t, adapter) by {
          if AllDecode(vs[1..], t, adapter) {
            forall i | 0 <= i < |vs|
              ensures DecodeValue(vs[i], t, adapter).Ok?
            {
              if i > 0 { assert vs[i] == vs[1..][i - 1]; }
            }
          }
        }
        if |vs| > 1 { assert Last(vs[1..]) == Last(vs); }
        if DecodeEach(vs[1..], t, adapter, x).Err? {
          var v :| v in vs[1..] && DecodeValue(v, t, adapter) == Err(DecodeEach(vs[1..], t, adapter, x).error);
          assert v in vs;
        }
    }
  }

  /**
   * The payload scan: when every occurrence of `key` decodes, the result is the last
   * occurrence (null when the name is absent); otherwise it is the failure of one of them.
   */
  lemma ParseSelectsLastOccurrence<A>(ms: seq<Member>, key: string, t: Target, adapter: Adapter<A>)
    ensures AllDecode(Occurrences(ms, key), t, adapter) ==> Parse(ms, key, t, adapter) == Ok(PayloadOf(ms, key, t, adapter))
    ensures !AllDecode(Occurrences(ms, key), t, adapter) ==> Parse(ms, key, t, adapter).Err?
    ensures Parse(ms, key, t, adapter).Err? ==>
              exists v :: Member(key, v) in ms && DecodeValue(v, t, adapter) == Err(Parse(ms, key, t, adapter).error)
  {
    ParseSeesOnlyKey(ms, key, t, adapter, VNull);
    DecodeEachKeepsLast(Occurrences(ms, key), t, adapter, VNull);
  }

  /** An integral number inside the 32-bit range decodes as exactly that `Int`. */
  lemma IntegralNumberDecodesExactly<A>(text: string, k: int, adapter: Adapter<A>)
    requires INT_MIN <= k <= INT_MAX
    ensures DecodeValue(JNum(text, k as real), TInt, adapter) == Ok(VInt(k))
  {
    assert Truncate(k as real) == k;
  }

  // ---------------------------------------------------------------------------
  // Look-ahead pass

  /** `nextString()`: a string token, or the literal text of a number token. */
  function ReadString(v: JValue, key: string): (r: Result<string, DataReason>)
    ensures r.Ok? <==> v.JStr? || v.JNum?
    ensures v.JStr? ==> r == Ok(v.s)
    ensures v.JNum? ==> r == Ok(v.text)
    ensures r.Err? ==> r.error == ExpectedString(key, PeekToken(v))
  {
    match v
    case JStr(s) => Ok(s)
    case JNum(text, _) => Ok(text)
    case _ => Err(ExpectedString(key, PeekToken(v)))
  }

  /** The look-ahead loop: reads every `status` and `message` member, skipping all others. */
  function LookAheadFrom(ms: seq<Member>, h: Header): Result<Header, DataReason>
    decreases |ms|
  {
    if |ms| == 0 then Ok(h)
    else if ms[0].key == MessageKey then
      match ReadString(ms[0].value, MessageKey)
      case Err(e) => Err(e)
      case Ok(s) => LookAheadFrom(ms[1..], h.(message := Some(s)))
    else if ms[0].key == StatusKey then
      match ReadString(ms[0].value, StatusKey)
      case Err(e) => Err(e)
      case Ok(s) => LookAheadFrom(ms[1..], h.(status := Some(s)))
    else LookAheadFrom(ms[1..], h)
  }

  /**
   * The look-ahead pass from an empty header: it succeeds exactly when every `status` and
   * `message` value is a string or number token, and then holds the last of each.
   */
  function LookAhead(ms: seq<Member>): (r: Result<Header, DataReason>)
    ensures r.Ok? <==> Readable(Occurrences(ms, StatusKey), StatusKey) && Readable(Occurrences(ms, MessageKey), MessageKey)
    ensures r.Ok? ==> r.value == Header(LastString(Occurrences(ms, StatusKey), StatusKey, None),
                                        LastString(Occurrences(ms, MessageKey), MessageKey, None))
  {
    LookAheadFindsLastStrings(ms, Header(None, None));
    LookAheadFrom(ms, Header(None, None))
  }

  ghost predicate Readable(vs: seq<JValue>, key: string) {
    forall i :: 0 <= i < |vs| ==> ReadString(vs[i], key).Ok?
  }

  /** The string of the last value in `vs`, or `dflt` when there is none. */
  function LastString(vs: seq<JValue>, key: string, dflt: Option<string>): Option<string> {
    if |vs| == 0 then dflt
    else match ReadString(Last(vs), key)
      case Ok(s) => Some(s)
      case Err(_) => dflt
  }

  lemma ReadableTail(vs: seq<JValue>, key: string)
    requires |vs| > 0
    ensures Readable(vs, key) <==> ReadString(vs[0], key).Ok? && Readable(vs[1..], key)
  {
    if ReadString(vs[0], key).Ok? && Readable(vs[1..], key) {
      forall i | 0 <= i < |vs|
        ensures ReadString(vs[i], key).Ok?
      {
        if i > 0 { assert vs[i] == vs[1..][i - 1]; }
      }
    }
  }

  /**
   * The look-ahead pass succeeds exactly when every `status` and `message` value is a
   * string or number token, and then holds the last of each (or what it started with).
   */
  lemma {:induction false} LookAheadFindsLastStrings(ms: seq<Member>, h: Header)
    ensures LookAheadFrom(ms, h).Ok? <==>
              Readable(Occurrences(ms, StatusKey), StatusKey) && Readable(Occurrences(ms, MessageKey), MessageKey)
    ensures LookAheadFrom(ms, h).Ok? ==>
              LookAheadFrom(ms, h).value
              == Header(LastString(Occurrences(ms, StatusKey), StatusKey, h.status),
                        LastString(Occurrences(ms, MessageKey), MessageKey, h.message))
    decreases |ms|
  {
    if |ms| > 0 {
      var st := Occurrences(ms, StatusKey);
      var mg := Occurrences(ms, MessageKey);
      var st' := Occurrences(ms[1..], StatusKey);
      var mg' := Occurrences(ms[1..], MessageKey);
      if ms[0].key == MessageKey {
        assert st == st';
        assert mg == [ms[0].value] + mg' && mg[1..] == mg';
        ReadableTail(mg, MessageKey);
        match ReadString(ms[0].value, MessageKey)
        case Err(e) =>
        case Ok(s) =>
          LookAheadFindsLastStrings(ms[1..], h.(message := Some(s)));
          if |mg'| > 0 { assert Last(mg) == Last(mg'); }
      } else if ms[0].key == StatusKey {
        assert mg == mg';
        assert st == [ms[0].value] + st' && st[1..] == st';
        ReadableTail(st, StatusKey);
        match ReadString(ms[0].value, StatusKey)
        case Err(e) =>
        case Ok(s) =>
          LookAheadFindsLastStrings(ms[1..], h.(status := Some(s)));
          if |st'| > 0 { assert Last(st) == Last(st'); }
      } else {
        assert st == st' && mg == mg';
        LookAheadFindsLastStrings(ms[1..], h);
      }
    }
  }

  // ---------------------------------------------------------------------------
  // Error annotations

  predicate IsErrorAnnotation(a: Annotation) {
    !a.OtherAnnotation?
  }

  function CountErrorAnnotations(anns: seq<Annotation>): (n: nat)
    ensures n <= |anns|
    ensures n == 0 <==> forall a :: a in anns ==> !IsErrorAnnotation(a)
  {
    if |anns| == 0 then 0
    else
      assert anns == [anns[0]] + anns[1..];
      (if IsErrorAnnotation(anns[0]) then 1 else 0) + CountErrorAnnotations(anns[1..])
  }

  function FirstErrorAnnotation(anns: seq<Annotation>): (r: Option<Annotation>)
    ensures r.None? <==> CountErrorAnnotations(anns) == 0
    ensures r.Some? ==> r.value in anns && IsErrorAnnotation(r.value)
  {
    if |anns| == 0 then None
    else if IsErrorAnnotation(anns[0]) then Some(anns[0])
    else FirstErrorAnnotation(anns[1..])
  }

  /** `findErrorAnn`: rejects several error annotations, else returns the one present, if any. */
  function FindErrorAnnotation(anns: seq<Annotation>): (r: Result<Option<Annotation>, ArgReason>)
    ensures r.Err? <==> CountErrorAnnotations(anns) > 1
    ensures r.Err? ==> r.error == SeveralErrorAnnotations
    ensures r == Ok(None) <==> CountErrorAnnotations(anns) == 0
    ensures r.Ok? && r.value.Some? ==> r.value.value in anns && IsErrorAnnotation(r.value.value)
  {
    if CountErrorAnnotations(anns) > 1 then Err(SeveralErrorAnnotations)
    else Ok(FirstErrorAnnotation(anns))
  }

  /** When a call site carries exactly one error annotation, that is the one found. */
  lemma {:induction false} SingleErrorAnnotationFound(anns: seq<Annotation>, a: Annotation)
    requires CountErrorAnnotations(anns) == 1
    requires a in anns && IsErrorAnnotation(a)
    ensures FindErrorAnnotation(anns) == Ok(Some(a))
    decreases |anns|
  {
    assert |anns| > 0;
    if !IsErrorAnnotation(anns[0]) {
      assert a in anns[1..];
      SingleErrorAnnotationFound(anns[1..], a);
    }
  }

  /** One of the eight JVM primitive classes, none of which can be the element type of a list. */
  predicate IsPrimitive(t: Target) {
    t.TDouble? || t.TLong? || t.TInt? || t.TFloat? || t.TShort? || t.TBoolean? || t.TByte? || t.TChar?
  }

  /** The type the `errors` payload is decoded as: the class itself, or a list of it. */
  function ErrorTarget(a: Annotation): (t: Target)
    requires IsErrorAnnotation(a)
    ensures a.ArrayError? ==> t == TList(a.clazz)
    ensures !a.ArrayError? ==> t == a.clazz
  {
    match a
    case PrimitiveError(c) => c
    case ObjectError(c) => c
    case ArrayError(c) => TList(c)
  }

  // ---------------------------------------------------------------------------
  // The converter

  /** The success branch: `data` under the call site's mode. */
  function DecodeData<A>(ms: seq<Member>, mode: Mode, adapter: Adapter<A>): (r: Result<Converted<A>, ConvertError<A>>)
    ensures r.Ok? ==> (mode.Ignored? <==> r.value.EmptyMarker?) && (mode.Optional? <==> r.value.NullableOf?)
    ensures mode.OptionalRaw? ==> r == Err(IllegalArgument(RawNullable))
    ensures (mode.Optional? || mode.Required?) && Parse(ms, DataKey, mode.target, adapter).Err? ==>
              r == Err(DataError(Parse(ms, DataKey, mode.target, adapter).error))
    ensures r.Ok? && r.value.Plain? ==> r.value.value != VNull
  {
    match mode
    case Ignored => Ok(EmptyMarker)
    case Optional(t) =>
      (match Parse(ms, DataKey, t, adapter)
       case Err(e) => Err(DataError(e))
       case Ok(x) => Ok(NullableOf(x)))
    case OptionalRaw => Err(IllegalArgument(RawNullable))
    case Required(t) =>
      (match Parse(ms, DataKey, t, adapter)
       case Err(e) => Err(DataError(e))
       case Ok(VNull) => Err(DataError(DataNotNullable))
       case Ok(x) => Ok(Plain(x)))
  }

  /**
   * The failure branch: never returns normally. A list type over a primitive element class
   * is rejected (`Types.newParameterizedType` accepts only boxed type arguments) before
   * `errors` is read.
   */
  function DecodeErrors<A>(ms: seq<Member>, status: string, message: string, anns: seq<Annotation>, adapter: Adapter<A>)
    : (r: Result<Converted<A>, ConvertError<A>>)
    ensures r.Err?
    ensures r.error.ServerFailure? ==> r.error.status == status && r.error.message == message
    ensures r.error == IllegalArgument(PrimitiveListElement) <==>
              FindErrorAnnotation(anns).Ok? && FindErrorAnnotation(anns).value.Some?
              && FindErrorAnnotation(anns).value.value.ArrayError? && IsPrimitive(FindErrorAnnotation(anns).value.value.clazz)
    ensures var found := FindErrorAnnotation(anns);
            found.Ok? && found.value.Some? && !(found.value.value.ArrayError? && IsPrimitive(found.value.value.clazz))
            && Parse(ms, ErrorsKey, ErrorTarget(found.value.value), adapter).Err? ==>
              r == Err(DataError(Parse(ms, ErrorsKey, ErrorTarget(found.value.value), adapter).error))
  {
    match FindErrorAnnotation(anns)
    case Err(e) => Err(IllegalArgument(e))
    case Ok(None) => Err(ServerFailure(status, message, VNull))
    case Ok(Some(a)) =>
      if a.ArrayError? && IsPrimitive(a.clazz) then Err(IllegalArgument(PrimitiveListElement))
      else
      match Parse(ms, ErrorsKey, ErrorTarget(a), adapter)
      case Err(e) => Err(DataError(e))
      case Ok(x) => Err(ServerFailure(status, message, x))
  }

  /** `convert`: the whole envelope decision. */
  function Convert<A>(body: JValue, mode: Mode, anns: seq<Annotation>, adapter: Adapter<A>)
    : (r: Result<Converted<A>, ConvertError<A>>)
    ensures !body.JObj? ==> r == Err(DataError(NotAnObject))
    ensures r.Ok? ==> body.JObj? && LookAhead(body.members).Ok?
                      && LookAhead(body.members).value.status == Some(SuccessStatus)
                      && LookAhead(body.members).value.message.Some?
  {
    if !body.JObj? then Err(DataError(NotAnObject))
    else
      match LookAhead(body.members)
      case Err(e) => Err(DataError(e))
      case Ok(h) =>
        if h.status.None? then Err(DataError(MissingStatus))
        else if h.message.None? then Err(DataError(MissingMessage))
        else if h.status.value == SuccessStatus then DecodeData(body.members, mode, adapter)
        else DecodeErrors(body.members, h.status.value, h.message.value, anns, adapter)
  }

  // ---------------------------------------------------------------------------
  // Properties of the converter

  /** Both header names are present and every occurrence is a string or number token. */
  ghost predicate WellFormedHeader(ms: seq<Member>) {
    && Occurrences(ms, StatusKey) != []
    && Occurrences(ms, MessageKey) != []
    && Readable(Occurrences(ms, StatusKey), StatusKey)
    && Readable(Occurrences(ms, MessageKey), MessageKey)
  }

  ghost function StatusOf(ms: seq<Member>): string
    requires WellFormedHeader(ms)
  {
    ReadString(Last(Occurrences(ms, StatusKey)), StatusKey).value
  }

  ghost function MessageOf(ms: seq<Member>): string
    requires WellFormedHeader(ms)
  {
    ReadString(Last(Occurrences(ms, MessageKey)), MessageKey).value
  }

  lemma HeaderOfWellFormed(ms: seq<Member>)
    requires WellFormedHeader(ms)
    ensures LookAhead(ms) == Ok(Header(Some(StatusOf(ms)), Some(MessageOf(ms))))
  {
  }

  /** Without a `status` or a `message` member the envelope is a data error, whatever the mode. */
  lemma MissingHeaderFails<A>(ms: seq<Member>, mode: Mode, anns: seq<Annotation>, adapter: Adapter<A>)
    requires Occurrences(ms, StatusKey) == [] || Occurrences(ms, MessageKey) == []
    ensures var r := Convert(JObj(ms), mode, anns, adapter);
            r.Err? && r.error.DataError?
    ensures var r := Convert(JObj(ms), mode, anns, adapter);
            Occurrences(ms, StatusKey) == [] && Readable(Occurrences(ms, MessageKey), MessageKey) ==>
              r == Err(DataError(MissingStatus))
    ensures var r := Convert(JObj(ms), mode, anns, adapter);
            Occurrences(ms, StatusKey) != [] && Readable(Occurrences(ms, StatusKey), StatusKey)
            && Occurrences(ms, MessageKey) == [] ==>
              r == Err(DataError(MissingMessage))
  {
  }

  /**
   * The branch is decided by the status alone: success only for "0x000"; any other status
   * ends in an error, and a server failure carries exactly the status and message read.
   */
  lemma BranchOnStatus<A>(ms: seq<Member>, mode: Mode, anns: seq<Annotation>, adapter: Adapter<A>)
    requires WellFormedHeader(ms)
    ensures var r := Convert(JObj(ms), mode, anns, adapter);
            r.Ok? ==> StatusOf(ms) == SuccessStatus
    ensures var r := Convert(JObj(ms), mode, anns, adapter);
            StatusOf(ms) != SuccessStatus ==> r.Err?
    ensures var r := Convert(JObj(ms), mode, anns, adapter);
            r.Err? && r.error.ServerFailure? ==>
              StatusOf(ms) != SuccessStatus && r.error.status == StatusOf(ms) && r.error.message == MessageOf(ms)
    ensures var r := Convert(JObj(ms), mode, anns, adapter);
            StatusOf(ms) == SuccessStatus ==> r == DecodeData(ms, mode, adapter)
  {
  }

  /**
   * On the success branch a raw `Nullable` is an `IllegalArgumentException`, and a `data`
   * value that fails to decode is a data error carrying that failure.
   */
  lemma SuccessBranchFailures<A>(ms: seq<Member>, mode: Mode, anns: seq<Annotation>, adapter: Adapter<A>)
    requires WellFormedHeader(ms) && StatusOf(ms) == SuccessStatus
    ensures var r := Convert(JObj(ms), mode, anns, adapter);
            mode.OptionalRaw? ==> r == Err(IllegalArgument(RawNullable))
    ensures var r := Convert(JObj(ms), mode, anns, adapter);
            (mode.Optional? || mode.Required?) && !AllDecode(Occurrences(ms, DataKey), mode.target, adapter) ==>
              && r.Err? && r.error.DataError?
              && exists v :: Member(DataKey, v) in ms && DecodeValue(v, mode.target, adapter) == Err(r.error.reason)
  {
    BranchOnStatus(ms, mode, anns, adapter);
    if mode.Optional? || mode.Required? {
      ParseSelectsLastOccurrence(ms, DataKey, mode.target, adapter);
    }
  }

  /** In `Empty` mode a success envelope yields the marker, whatever `data` holds. */
  lemma IgnoredModeIgnoresData<A>(ms: seq<Member>, anns: seq<Annotation>, adapter: Adapter<A>)
    requires WellFormedHeader(ms) && StatusOf(ms) == SuccessStatus
    ensures Convert(JObj(ms), Ignored, anns, adapter) == Ok(EmptyMarker)
  {
  }

  /** In `Nullable<T>` mode an absent or null `data` gives `Nullable(null)`, else the decoded value. */
  lemma OptionalModeWrapsData<A>(ms: seq<Member>, t: Target, anns: seq<Annotation>, adapter: Adapter<A>)
    requires WellFormedHeader(ms) && StatusOf(ms) == SuccessStatus
    requires AllDecode(Occurrences(ms, DataKey), t, adapter)
    ensures Convert(JObj(ms), Optional(t), anns, adapter) == Ok(NullableOf(PayloadOf(ms, DataKey, t, adapter)))
    ensures Occurrences(ms, DataKey) == [] || Last(Occurrences(ms, DataKey)) == JNull ==>
              Convert(JObj(ms), Optional(t), anns, adapter) == Ok(NullableOf(VNull))
  {
    HeaderOfWellFormed(ms);
    ParseSelectsLastOccurrence(ms, DataKey, t, adapter);
  }

  /**
   * The payload is null exactly when `key` is absent, its last value is JSON null, or its
   * last value is an object or array the adapter decodes to null.
   */
  lemma PayloadNullExactly<A>(ms: seq<Member>, key: string, t: Target, adapter: Adapter<A>)
    requires AllDecode(Occurrences(ms, key), t, adapter)
    ensures PayloadOf(ms, key, t, adapter) == VNull <==>
              || Occurrences(ms, key) == []
              || Last(Occurrences(ms, key)) == JNull
              || ((Last(Occurrences(ms, key)).JObj? || Last(Occurrences(ms, key)).JArr?)
                  && adapter(t, Last(Occurrences(ms, key))) == Ok(None))
  {
    var vs := Occurrences(ms, key);
    if |vs| > 0 {
      assert DecodeValue(vs[|vs| - 1], t, adapter).Ok?;
    }
  }

  /**
   * In plain `T` mode a null payload (absent, JSON null, or an object the adapter decodes
   * to null) is a data error; anything else is returned decoded.
   */
  lemma RequiredModeRejectsNull<A>(ms: seq<Member>, t: Target, anns: seq<Annotation>, adapter: Adapter<A>)
    requires WellFormedHeader(ms) && StatusOf(ms) == SuccessStatus
    requires AllDecode(Occurrences(ms, DataKey), t, adapter)
    ensures PayloadOf(ms, DataKey, t, adapter) == VNull ==>
              Convert(JObj(ms), Required(t), anns, adapter) == Err(DataError(DataNotNullable))
    ensures Occurrences(ms, DataKey) == [] || Last(Occurrences(ms, DataKey)) == JNull ==>
              Convert(JObj(ms), Required(t), anns, adapter) == Err(DataError(DataNotNullable))
    ensures PayloadOf(ms, DataKey, t, adapter) != VNull ==>
              Convert(JObj(ms), Required(t), anns, adapter) == Ok(Plain(PayloadOf(ms, DataKey, t, adapter)))
  {
    BranchOnStatus(ms, Required(t), anns, adapter);
    RequiredDataOf(ms, t, adapter);
    PayloadNullExactly(ms, DataKey, t, adapter);
  }

  /** The success branch in plain `T` mode rejects a null payload and returns any other. */
  lemma RequiredDataOf<A>(ms: seq<Member>, t: Target, adapter: Adapter<A>)
    requires AllDecode(Occurrences(ms, DataKey), t, adapter)
    ensures PayloadOf(ms, DataKey, t, adapter) == VNull ==>
              DecodeData(ms, Required(t), adapter) == Err(DataError(DataNotNullable))
    ensures PayloadOf(ms, DataKey, t, adapter) != VNull ==>
              DecodeData(ms, Required(t), adapter) == Ok(Plain(PayloadOf(ms, DataKey, t, adapter)))
  {
    ParseSelectsLastOccurrence(ms, DataKey, t, adapter);
  }

  /** A failure envelope without an error annotation carries a null payload. */
  lemma FailureWithoutDescriptor<A>(ms: seq<Member>, mode: Mode, anns: seq<Annotation>, adapter: Adapter<A>)
    requires WellFormedHeader(ms) && StatusOf(ms) != SuccessStatus
    requires CountErrorAnnotations(anns) == 0
    ensures Convert(JObj(ms), mode, anns, adapter) == Err(ServerFailure(StatusOf(ms), MessageOf(ms), VNull))
  {
  }

  /**
   * With exactly one error annotation the failure carries `errors` decoded as its class,
   * or as a list of its class for `ArrayError`; a list of a primitive class is an
   * `IllegalArgumentException` instead, and an `errors` value that fails to decode turns
   * the server failure into a data error carrying that value's failure.
   */
  lemma FailureWithDescriptor<A>(ms: seq<Member>, mode: Mode, anns: seq<Annotation>, a: Annotation, adapter: Adapter<A>)
    requires WellFormedHeader(ms) && StatusOf(ms) != SuccessStatus
    requires CountErrorAnnotations(anns) == 1 && a in anns && IsErrorAnnotation(a)
    ensures var r := Convert(JObj(ms), mode, anns, adapter);
            a.ArrayError? && IsPrimitive(a.clazz) ==> r == Err(IllegalArgument(PrimitiveListElement))
    ensures var r := Convert(JObj(ms), mode, anns, adapter);
            !(a.ArrayError? && IsPrimitive(a.clazz)) && AllDecode(Occurrences(ms, ErrorsKey), ErrorTarget(a), adapter) ==>
              r == Err(ServerFailure(StatusOf(ms), MessageOf(ms), PayloadOf(ms, ErrorsKey, ErrorTarget(a), adapter)))
    ensures var r := Convert(JObj(ms), mode, anns, adapter);
            !(a.ArrayError? && IsPrimitive(a.clazz)) && !AllDecode(Occurrences(ms, ErrorsKey), ErrorTarget(a), adapter) ==>
              && r.Err? && r.error.DataError?
              && exists v :: Member(ErrorsKey, v) in ms && DecodeValue(v, ErrorTarget(a), adapter) == Err(r.error.reason)
  {
    HeaderOfWellFormed(ms);
    SingleErrorAnnotationFound(anns, a);
    ParseSelectsLastOccurrence(ms, ErrorsKey, ErrorTarget(a), adapter);
  }

  /** Several error annotations are rejected, but only once the failure branch runs. */
  lemma SeveralDescriptorsRejectedOnFailure<A>(ms: seq<Member>, mode: Mode, anns: seq<Annotation>, adapter: Adapter<A>)
    requires WellFormedHeader(ms)
    requires CountErrorAnnotations(anns) > 1
    ensures StatusOf(ms) != SuccessStatus ==>
              Convert(JObj(ms), mode, anns, adapter) == Err(IllegalArgument(SeveralErrorAnnotations))
    ensures StatusOf(ms) == SuccessStatus ==>
              Convert(JObj(ms), mode, anns, adapter) == Convert(JObj(ms), mode, [], adapter)
  {
  }

  /** The look-ahead pass depends only on the `status` and `message` values, in order. */
  lemma LookAheadSeesOnlyHeader(ms: seq<Member>, ms': seq<Member>)
    requires Occurrences(ms, StatusKey) == Occurrences(ms', StatusKey)
    requires Occurrences(ms, MessageKey) == Occurrences(ms', MessageKey)
    requires Readable(Occurrences(ms, StatusKey), StatusKey) && Readable(Occurrences(ms, MessageKey), MessageKey)
    ensures LookAhead(ms) == LookAhead(ms')
  {
    LookAheadFindsLastStrings(ms, Header(None, None));
    LookAheadFindsLastStrings(ms', Header(None, None));
  }

  lemma ParseSameOccurrences<A>(ms: seq<Member>, ms': seq<Member>, key: string, t: Target, adapter: Adapter<A>)
    requires Occurrences(ms, key) == Occurrences(ms', key)
    ensures Parse(ms, key, t, adapter) == Parse(ms', key, t, adapter)
  {
  }

  /**
   * Key order is irrelevant: two envelopes that hold the same values under each of the
   * four names, in the same relative order, convert identically.
   */
  lemma KeyOrderIrrelevant<A>(ms: seq<Member>, ms': seq<Member>, mode: Mode, anns: seq<Annotation>, adapter: Adapter<A>)
    requires Occurrences(ms, StatusKey) == Occurrences(ms', StatusKey)
    requires Occurrences(ms, MessageKey) == Occurrences(ms', MessageKey)
    requires Occurrences(ms, DataKey) == Occurrences(ms', DataKey)
    requires Occurrences(ms, ErrorsKey) == Occurrences(ms', ErrorsKey)
    requires Readable(Occurrences(ms, StatusKey), StatusKey) && Readable(Occurrences(ms, MessageKey), MessageKey)
    ensures Convert(JObj(ms), mode, anns, adapter) == Convert(JObj(ms'), mode, anns, adapter)
  {
    LookAheadSeesOnlyHeader(ms, ms');
    DecodeDataSameOccurrences(ms, ms', mode, adapter);
    var h := LookAhead(ms);
    if h.Ok? && h.value.status.Some? && h.value.message.Some? {
      DecodeErrorsSameOccurrences(ms, ms', h.value.status.value, h.value.message.value, anns, adapter);
    }
    ConvertSameParts(ms, ms', mode, anns, adapter);
  }

  /** Two envelopes whose header, success branch and failure branch agree convert alike. */
  lemma ConvertSameParts<A>(ms: seq<Member>, ms': seq<Member>, mode: Mode, anns: seq<Annotation>, adapter: Adapter<A>)
    requires LookAhead(ms) == LookAhead(ms')
    requires DecodeData(ms, mode, adapter) == DecodeData(ms', mode, adapter)
    requires LookAhead(ms).Ok? && LookAhead(ms).value.status.Some? && LookAhead(ms).value.message.Some? ==>
               DecodeErrors(ms, LookAhead(ms).value.status.value, LookAhead(ms).value.message.value, anns, adapter)
               == DecodeErrors(ms', LookAhead(ms).value.status.value, LookAhead(ms).value.message.value, anns, adapter)
    ensures Convert(JObj(ms), mode, anns, adapter) == Convert(JObj(ms'), mode, anns, adapter)
  {
  }

  lemma DecodeDataSameOccurrences<A>(ms: seq<Member>, ms': seq<Member>, mode: Mode, adapter: Adapter<A>)
    requires Occurrences(ms, DataKey) == Occurrences(ms', DataKey)
    ensures DecodeData(ms, mode, adapter) == DecodeData(ms', mode, adapter)
  {
  }

  lemma DecodeErrorsSameOccurrences<A>(ms: seq<Member>, ms': seq<Member>, status: string, message: string,
                                       anns: seq<Annotation>, adapter: Adapter<A>)
    requires Occurrences(ms, ErrorsKey) == Occurrences(ms', ErrorsKey)
    ensures DecodeErrors(ms, status, message, anns, adapter) == DecodeErrors(ms', status, message, anns, adapter)
  {
    match FindErrorAnnotation(anns)
    case Ok(Some(a)) => ParseSameOccurrences(ms, ms', ErrorsKey, ErrorTarget(a), adapter);
    case _ =>
  }

  lemma ReadableSingleton(v: JValue, key: string)
    requires v.JStr?
    ensures Readable([v], key)
  {
  }

  lemma AllDecodeSingleton<A>(v: JValue, t: Target, adapter: Adapter<A>)
    requires DecodeValue(v, t, adapter).Ok?
    ensures AllDecode([v], t, adapter)
  {
  }

  /** The occurrences in a three-member object, spelled out member by member. */
  lemma OccurrencesOfThree(a: Member, b: Member, c: Member, k: string)
    ensures Occurrences([a, b, c], k)
            == (if a.key == k then [a.value] else []) + (if b.key == k then [b.value] else [])
               + (if c.key == k then [c.value] else [])
  {
    assert [a, b, c][1..] == [b, c];
    assert [b, c][1..] == [c];
    assert [c][1..] == [];
  }

  /** Reordering three members with distinct names keeps the occurrences of every name. */
  lemma SameOccurrencesOfThree(a: Member, b: Member, c: Member, k: string)
    requires a.key != b.key && b.key != c.key && a.key != c.key
    ensures Occurrences([a, b, c], k) == Occurrences([c, b, a], k) == Occurrences([b, a, c], k)
  {
    OccurrencesOfThree(a, b, c, k);
    OccurrencesOfThree(c, b, a, k);
    OccurrencesOfThree(b, a, c, k);
  }

  /** A number under a non-primitive class is kept as the double `nextDouble()` read. */
  lemma NumberUnderClassDecodes<A>(text: string, n: real, name: string, adapter: Adapter<A>)
    ensures DecodeValue(JNum(text, n), TClass(name), adapter) == Ok(VDouble(n))
  {
  }

  /**
   * `{"status":"0x000","message":"success","data":99}` for a call returning `Int`. A suspend
   * function's return type reaches the converter boxed, as `java.lang.Integer`, which is not
   * one of the primitive classes the number dispatch tests: the payload is the double 99.0,
   * in any key order.
   */
  lemma ExampleIntPayload<A>(status: Member, message: Member, data: Member, adapter: Adapter<A>)
    requires status == Member(StatusKey, JStr("0x000"))
    requires message == Member(MessageKey, JStr("success"))
    requires data == Member(DataKey, JNum("99", 99.0))
    ensures Convert(JObj([status, message, data]), Required(TClass("java.lang.Integer")), [], adapter) == Ok(Plain(VDouble(99.0)))
    ensures Convert(JObj([data, message, status]), Required(TClass("java.lang.Integer")), [], adapter) == Ok(Plain(VDouble(99.0)))
    ensures Convert(JObj([message, status, data]), Required(TClass("java.lang.Integer")), [], adapter) == Ok(Plain(VDouble(99.0)))
  {
    var t := TClass("java.lang.Integer");
    var m1 := [status, message, data];
    assert StatusKey != MessageKey && StatusKey != DataKey && StatusKey != ErrorsKey;
    assert MessageKey != DataKey && MessageKey != ErrorsKey && DataKey != ErrorsKey;
    var m2 := [data, message, status];
    var m3 := [message, status, data];
    SameOccurrencesOfThree(status, message, data, StatusKey);
    SameOccurrencesOfThree(status, message, data, MessageKey);
    SameOccurrencesOfThree(status, message, data, DataKey);
    SameOccurrencesOfThree(status, message, data, ErrorsKey);
    OccurrencesOfThree(status, message, data, StatusKey);
    OccurrencesOfThree(status, message, data, MessageKey);
    OccurrencesOfThree(status, message, data, DataKey);
    var st, mg, dt := Occurrences(m1, StatusKey), Occurrences(m1, MessageKey), Occurrences(m1, DataKey);
    assert st == [JStr("0x000")] && mg == [JStr("success")] && dt == [JNum("99", 99.0)];
    ReadableSingleton(JStr("0x000"), StatusKey);
    ReadableSingleton(JStr("success"), MessageKey);
    NumberUnderClassDecodes("99", 99.0, "java.lang.Integer", adapter);
    AllDecodeSingleton(JNum("99", 99.0), t, adapter);
    assert Last(dt) == JNum("99", 99.0);
    assert PayloadOf(m1, DataKey, t, adapter) == VDouble(99.0);
    RequiredModeRejectsNull(m1, t, [], adapter);
    KeyOrderIrrelevant(m1, m2, Required(t), [], adapter);
    KeyOrderIrrelevant(m1, m3, Required(t), [], adapter);
  }

  /**
   * `{"status":"0x129","message":"failure","errors":"errorMsg1"}` at a call site annotated
   * `@PrimitiveError(String::class)`: a server failure whose payload is the string.
   */
  lemma ExamplePrimitiveError<A>(status: Member, message: Member, errors: Member, mode: Mode, adapter: Adapter<A>)
    requires status == Member(StatusKey, JStr("0x129"))
    requires message == Member(MessageKey, JStr("failure"))
    requires errors == Member(ErrorsKey, JStr("errorMsg1"))
    ensures Convert(JObj([status, message, errors]), mode, [PrimitiveError(TClass("java.lang.String"))], adapter)
            == Err(ServerFailure("0x129", "failure", VString("errorMsg1")))
  {
    var a := PrimitiveError(TClass("java.lang.String"));
    var ms := [status, message, errors];
    assert StatusKey != MessageKey && StatusKey != ErrorsKey && MessageKey != ErrorsKey;
    OccurrencesOfThree(status, message, errors, StatusKey);
    OccurrencesOfThree(status, message, errors, MessageKey);
    OccurrencesOfThree(status, message, errors, ErrorsKey);
    assert Occurrences(ms, StatusKey) == [JStr("0x129")];
    assert Occurrences(ms, MessageKey) == [JStr("failure")];
    assert Occurrences(ms, ErrorsKey) == [JStr("errorMsg1")];
    ReadableSingleton(JStr("0x129"), StatusKey);
    ReadableSingleton(JStr("failure"), MessageKey);
    assert CountErrorAnnotations([a]) == 1;
    AllDecodeSingleton(JStr("errorMsg1"), ErrorTarget(a), adapter);
    FailureWithDescriptor(ms, mode, [a], a, adapter);
  }
}
