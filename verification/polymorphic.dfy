/**
 * The label-keyed polymorphic adapter factory. An immutable builder keeps two parallel
 * lists, `labels` and `subtypes`, with unique labels, and an optional fallback. Decoding
 * reads the first value under `labelKey` from a look-ahead reading of the object, narrows
 * it to the declared label kind, finds its index and hands the WHOLE object to that
 * subtype's decoder. Encoding writes the label of the value's subtype first, followed by
 * the subtype's own fields.
 */
module Polymorphic {
  import opened Wrappers
  import opened Lists
  import opened Json
  import opened Numeric

  /** The name of a concrete subtype (a class of the sealed hierarchy). */
  type TypeName = string

  /** The declared Java class of label values. */
  datatype LabelKind = IntLabel | LongLabel | ShortLabel | StringLabel | BooleanLabel | DoubleLabel

  /** A boxed label value. */
  datatype Label =
    | LInt(i: int)
    | LLong(l: int)
    | LShort(h: int)
    | LString(s: string)
    | LBoolean(b: bool)
    | LDouble(d: real)

  function KindOf(l: Label): LabelKind {
    match l
    case LInt(_) => IntLabel
    case LLong(_) => LongLabel
    case LShort(_) => ShortLabel
    case LString(_) => StringLabel
    case LBoolean(_) => BooleanLabel
    case LDouble(_) => DoubleLabel
  }

  /** `l` is a value of the Java class `kind`: right variant, within that class's width. */
  predicate Fits(kind: LabelKind, l: Label) {
    && KindOf(l) == kind
    && match l
       case LInt(i) => INT_MIN <= i <= INT_MAX
       case LLong(n) => LONG_MIN <= n <= LONG_MAX
       case LShort(h) => SHORT_MIN <= h <= SHORT_MAX
       case _ => true
  }

  /** What happens to an unmatched label: an error, or a default value (which may be null). */
  datatype Fallback<+A> = NoFallback | DefaultValue(value: Option<A>)

  datatype Factory<+A> = Factory(
    baseType: TypeName,
    labelKind: LabelKind,
    labelKey: string,
    labels: seq<Label>,
    subtypes: seq<TypeName>,
    fallback: Fallback<A>)

  /** The builder's invariant: parallel lists, unique labels, each label of the declared kind. */
  ghost predicate Valid<A>(f: Factory<A>) {
    && |f.labels| == |f.subtypes|
    && Distinct(f.labels)
    && forall i :: 0 <= i < |f.labels| ==> Fits(f.labelKind, f.labels[i])
  }

  datatype BuildError = DuplicateLabel(duplicate: Label)

  datatype PolyError =
    | NotAnObject
    | MissingLabel(labelKey: string)
    | NullLabel(labelKey: string)
    | LabelTypeMismatch(expectedKind: LabelKind, foundToken: Token)
    | UnmatchedLabel(registeredLabels: seq<Label>, labelKey: string, foundLabel: Label)
    | SubtypeFailed(detail: string)
    | UnregisteredSubtype(registeredTypes: seq<TypeName>, foundType: TypeName)

  /** The decoder Moshi builds for each registered subtype; it may return null. */
  type SubtypeAdapter<!A> = (TypeName, JValue) -> Result<Option<A>, string>

  // ---------------------------------------------------------------------------
  // Building

  /** `intTypeOf`, `stringTypeOf`, `booleanTypeOf`, `doubleTypeOf`: no subtypes, no fallback. */
  function NewFactory<A>(baseType: TypeName, labelKind: LabelKind, labelKey: string): (f: Factory<A>)
    ensures Valid(f)
    ensures f.labels == [] && f.subtypes == [] && f.fallback == NoFallback
    ensures f.baseType == baseType && f.labelKind == labelKind && f.labelKey == labelKey
  {
    Factory(baseType, labelKind, labelKey, [], [], NoFallback)
  }

  /** `withSubtype`: a new factory with one more (label, subtype) pair; labels stay unique. */
  function WithSubtype<A>(f: Factory<A>, subtype: TypeName, newLabel: Label): (r: Result<Factory<A>, BuildError>)
    ensures r.Err? <==> newLabel in f.labels
    ensures r.Err? ==> r.error == DuplicateLabel(newLabel)
    ensures r.Ok? ==> r.value.labels == f.labels + [newLabel] && r.value.subtypes == f.subtypes + [subtype]
    ensures r.Ok? ==> r.value == r.value.(baseType := f.baseType, labelKind := f.labelKind,
                                         labelKey := f.labelKey, fallback := f.fallback)
    ensures r.Ok? && Valid(f) && Fits(f.labelKind, newLabel) ==> Valid(r.value)
    ensures r.Ok? && Valid(f) ==> IndexOf(r.value.labels, newLabel) == |f.labels|
  {
    if newLabel in f.labels then Err(DuplicateLabel(newLabel))
    else
      var g := f.(labels := f.labels + [newLabel], subtypes := f.subtypes + [subtype]);
      Ok(g)
  }

  /** `withFallbackJsonAdapter`, restricted to the default-value adapters and `null`. */
  function WithFallback<A>(f: Factory<A>, fallback: Fallback<A>): (r: Factory<A>)
    ensures r.fallback == fallback
    ensures r.labels == f.labels && r.subtypes == f.subtypes && r.labelKey == f.labelKey
    ensures r.labelKind == f.labelKind && r.baseType == f.baseType
    ensures Valid(f) ==> Valid(r)
  {
    f.(fallback := fallback)
  }

  /** `withDefaultValue`: unmatched labels decode to `value`, which may be null. */
  function WithDefaultValue<A>(f: Factory<A>, value: Option<A>): (r: Factory<A>)
    ensures r.fallback.DefaultValue? && r.fallback.value == value
    ensures r.labels == f.labels && r.subtypes == f.subtypes && r.labelKey == f.labelKey
    ensures r.labelKind == f.labelKind && r.baseType == f.baseType
    ensures Valid(f) ==> Valid(r)
  {
    WithFallback(f, DefaultValue(value))
  }

  // ---------------------------------------------------------------------------
  // Decoding

  /**
   * The label value as `readJsonValue` returns it, narrowed to the declared kind: a number
   * is a double, narrowed for Integer, Short and Long; any remaining kind mismatch fails.
   */
  function ReadLabel(v: JValue, kind: LabelKind, labelKey: string): (r: Result<Label, PolyError>)
    ensures r.Ok? ==> Fits(kind, r.value)
    ensures v == JNull ==> r == Err(NullLabel(labelKey))
    ensures r.Ok? <==>
              || (v.JNum? && kind in {IntLabel, LongLabel, ShortLabel, DoubleLabel})
              || (v.JStr? && kind == StringLabel)
              || (v.JBool? && kind == BooleanLabel)
    ensures r.Err? && v != JNull ==> r.error == LabelTypeMismatch(kind, PeekToken(v))
    ensures v.JStr? && kind == StringLabel ==> r == Ok(LString(v.s))
    ensures v.JBool? && kind == BooleanLabel ==> r == Ok(LBoolean(v.b))
    ensures v.JNum? && kind == DoubleLabel ==> r == Ok(LDouble(v.num))
    ensures v.JNum? && kind == IntLabel && INT_MIN <= Truncate(v.num) <= INT_MAX ==> r == Ok(LInt(Truncate(v.num)))
    ensures v.JNum? && kind == LongLabel && LONG_MIN <= Truncate(v.num) <= LONG_MAX ==> r == Ok(LLong(Truncate(v.num)))
    ensures v.JNum? && kind == ShortLabel && SHORT_MIN <= Truncate(v.num) <= SHORT_MAX ==> r == Ok(LShort(Truncate(v.num)))
  {
    match v
    case JNull => Err(NullLabel(labelKey))
    case JNum(_, n) =>
      (match kind
       case IntLabel => Ok(LInt(DoubleToInt(n)))
       case ShortLabel => Ok(LShort(DoubleToShort(n)))
       case LongLabel => Ok(LLong(DoubleToLong(n)))
       case DoubleLabel => Ok(LDouble(n))
       case _ => Err(LabelTypeMismatch(kind, NumberToken)))
    case JStr(s) => if kind == StringLabel then Ok(LString(s)) else Err(LabelTypeMismatch(kind, StringToken))
    case JBool(b) => if kind == BooleanLabel then Ok(LBoolean(b)) else Err(LabelTypeMismatch(kind, BooleanToken))
    case _ => Err(LabelTypeMismatch(kind, PeekToken(v)))
  }

  /** The look-ahead scan of `labelIndex`: the first value under `labelKey`, read as a label. */
  function PeekedLabel<A>(f: Factory<A>, body: JValue): (r: Result<Label, PolyError>)
    ensures !body.JObj? ==> r == Err(NotAnObject)
    ensures body.JObj? && Occurrences(body.members, f.labelKey) == [] ==> r == Err(MissingLabel(f.labelKey))
    ensures body.JObj? && Occurrences(body.members, f.labelKey) != [] ==>
              r == ReadLabel(Occurrences(body.members, f.labelKey)[0], f.labelKind, f.labelKey)
  {
    if !body.JObj? then Err(NotAnObject)
    else
      match FirstOccurrence(body.members, f.labelKey)
      case None => Err(MissingLabel(f.labelKey))
      case Some(v) => ReadLabel(v, f.labelKind, f.labelKey)
  }

  /**
   * `labelIndex`: the position of the peeked label, `None` standing for -1 (possible only
   * when a fallback is configured).
   */
  function LabelIndex<A>(f: Factory<A>, body: JValue): (r: Result<Option<nat>, PolyError>)
    ensures PeekedLabel(f, body).Err? ==> r == Err(PeekedLabel(f, body).error)
    ensures PeekedLabel(f, body).Ok? && PeekedLabel(f, body).value in f.labels ==>
              && r.Ok? && r.value.Some? && r.value.value < |f.labels|
              && f.labels[r.value.value] == PeekedLabel(f, body).value
    ensures PeekedLabel(f, body).Ok? && PeekedLabel(f, body).value !in f.labels ==>
              r == if f.fallback.NoFallback?
                   then Err(UnmatchedLabel(f.labels, f.labelKey, PeekedLabel(f, body).value))
                   else Ok(None)
    ensures r.Ok? && r.value.Some? && Valid(f) ==>
              forall j :: 0 <= j < |f.labels| && f.labels[j] == f.labels[r.value.value] ==> j == r.value.value
  {
    match PeekedLabel(f, body)
    case Err(e) => Err(e)
    case Ok(l) =>
      var i := IndexOf(f.labels, l);
      if i >= 0 then Ok(Some(i))
      else if f.fallback.NoFallback? then Err(UnmatchedLabel(f.labels, f.labelKey, l))
      else Ok(None)
  }

  /** Lifts a subtype decoder's outcome into the adapter's. */
  function Lift<A>(x: Result<Option<A>, string>): Result<Option<A>, PolyError> {
    match x
    case Ok(a) => Ok(a)
    case Err(m) => Err(SubtypeFailed(m))
  }

  /** `fromJson`: peek the label, then decode the whole object with the selected decoder. */
  function FromJson<A>(f: Factory<A>, body: JValue, adapterFor: SubtypeAdapter<A>): (r: Result<Option<A>, PolyError>)
    requires |f.labels| == |f.subtypes|
    ensures PeekedLabel(f, body).Err? ==> r == Err(PeekedLabel(f, body).error)
    ensures r.Ok? && r.value.None? ==>
              || f.fallback == DefaultValue(None)
              || (PeekedLabel(f, body).value in f.labels
                  && adapterFor(f.subtypes[IndexOf(f.labels, PeekedLabel(f, body).value)], body) == Ok(None))
    ensures r.Err? && r.error.SubtypeFailed? ==>
              PeekedLabel(f, body).value in f.labels
              && adapterFor(f.subtypes[IndexOf(f.labels, PeekedLabel(f, body).value)], body) == Err(r.error.detail)
  {
    match LabelIndex(f, body)
    case Err(e) => Err(e)
    case Ok(None) => Ok(f.fallback.value)
    case Ok(Some(i)) => Lift(adapterFor(f.subtypes[i], body))
  }

  /** A matched label at position `i` hands the entire object, label included, to `subtypes[i]`. */
  lemma FromJsonMatched<A>(f: Factory<A>, body: JValue, adapterFor: SubtypeAdapter<A>, i: nat)
    requires Valid(f)
    requires i < |f.labels| && PeekedLabel(f, body) == Ok(f.labels[i])
    ensures FromJson(f, body, adapterFor) == Lift(adapterFor(f.subtypes[i], body))
  {
  }

  /** An unmatched label fails without a fallback and yields the default value with one. */
  lemma FromJsonUnmatched<A>(f: Factory<A>, body: JValue, adapterFor: SubtypeAdapter<A>)
    requires |f.labels| == |f.subtypes|
    requires PeekedLabel(f, body).Ok? && PeekedLabel(f, body).value !in f.labels
    ensures f.fallback == NoFallback ==>
              FromJson(f, body, adapterFor) == Err(UnmatchedLabel(f.labels, f.labelKey, PeekedLabel(f, body).value))
    ensures f.fallback.DefaultValue? ==> FromJson(f, body, adapterFor) == Ok(f.fallback.value)
  {
  }

  /** An object without the label name, or with null as its first label value, is rejected. */
  lemma MissingOrNullLabelFails<A>(f: Factory<A>, ms: seq<Member>, adapterFor: SubtypeAdapter<A>)
    requires |f.labels| == |f.subtypes|
    ensures Occurrences(ms, f.labelKey) == [] ==> FromJson(f, JObj(ms), adapterFor) == Err(MissingLabel(f.labelKey))
    ensures Occurrences(ms, f.labelKey) != [] && Occurrences(ms, f.labelKey)[0] == JNull ==>
              FromJson(f, JObj(ms), adapterFor) == Err(NullLabel(f.labelKey))
  {
  }

  /** No fallback and a null default are different: one fails, the other returns null. */
  lemma FallbackStatesDiffer<A>(f: Factory<A>, body: JValue, adapterFor: SubtypeAdapter<A>)
    requires |f.labels| == |f.subtypes|
    requires PeekedLabel(f, body).Ok? && PeekedLabel(f, body).value !in f.labels
    ensures FromJson(WithFallback(f, NoFallback), body, adapterFor).Err?
    ensures FromJson(WithDefaultValue(f, None), body, adapterFor) == Ok(None)
  {
    FromJsonUnmatched(WithFallback(f, NoFallback), body, adapterFor);
    FromJsonUnmatched(WithDefaultValue(f, None), body, adapterFor);
  }

  // ---------------------------------------------------------------------------
  // Encoding

  /** A label as the writer emits it; `render` is the writer's text for a number. */
  function LabelJson(l: Label, render: real -> string): JValue {
    match l
    case LInt(i) => JNum(render(i as real), i as real)
    case LLong(n) => JNum(render(n as real), n as real)
    case LShort(h) => JNum(render(h as real), h as real)
    case LString(s) => JStr(s)
    case LBoolean(b) => JBool(b)
    case LDouble(d) => JNum(render(d), d)
  }

  /** A label written out and read back under its own kind is the same label. */
  lemma ReadLabelJson(l: Label, labelKey: string, render: real -> string)
    requires Fits(KindOf(l), l)
    ensures ReadLabel(LabelJson(l, render), KindOf(l), labelKey) == Ok(l)
  {
    match l
    case LInt(i) => assert Truncate(i as real) == i;
    case LLong(n) => assert Truncate(n as real) == n;
    case LShort(h) => assert Truncate(h as real) == h;
    case _ =>
  }

  /**
   * `toJson`: a value of a registered subtype becomes an object whose first member is
   * `labelKey: labels[i]`, followed by the subtype's own fields; an unregistered subtype
   * is an error whether or not a fallback is configured.
   */
  function ToJson<A>(f: Factory<A>, value: A, variantOf: A -> TypeName, fieldsOf: A -> seq<Member>,
                     render: real -> string): (r: Result<JValue, PolyError>)
    requires |f.labels| == |f.subtypes|
    ensures r.Err? <==> variantOf(value) !in f.subtypes
    ensures r.Err? ==> r.error == UnregisteredSubtype(f.subtypes, variantOf(value))
    ensures r.Ok? ==> && r.value.JObj? && |r.value.members| == |fieldsOf(value)| + 1
                      && r.value.members[0].key == f.labelKey
                      && r.value.members[1..] == fieldsOf(value)
                      && exists i :: 0 <= i < |f.subtypes| && f.subtypes[i] == variantOf(value)
                                     && r.value.members[0].value == LabelJson(f.labels[i], render)
    ensures r.Ok? ==> r.value.members[0].value == LabelJson(f.labels[IndexOf(f.subtypes, variantOf(value))], render)
  {
    var i := IndexOf(f.subtypes, variantOf(value));
    if i < 0 then Err(UnregisteredSubtype(f.subtypes, variantOf(value)))
    else
      var ms := [Member(f.labelKey, LabelJson(f.labels[i], render))] + fieldsOf(value);
      assert ms[1..] == fieldsOf(value);
      Ok(JObj(ms))
  }

  /**
   * Label round trip: decoding the encoding of a registered value selects the position
   * `toJson` wrote the label of, which holds the value's own subtype.
   */
  lemma LabelRoundTrip<A>(f: Factory<A>, value: A, variantOf: A -> TypeName, fieldsOf: A -> seq<Member>,
                          render: real -> string)
    requires Valid(f)
    requires variantOf(value) in f.subtypes
    ensures ToJson(f, value, variantOf, fieldsOf, render).Ok?
    ensures LabelIndex(f, ToJson(f, value, variantOf, fieldsOf, render).value)
            == Ok(Some(IndexOf(f.subtypes, variantOf(value))))
    ensures f.subtypes[IndexOf(f.subtypes, variantOf(value))] == variantOf(value)
  {
    var i := IndexOf(f.subtypes, variantOf(value));
    var body := ToJson(f, value, variantOf, fieldsOf, render).value;
    var l := f.labels[i];
    assert Fits(f.labelKind, l);
    assert body.members == [Member(f.labelKey, LabelJson(l, render))] + fieldsOf(value);
    assert FirstOccurrence(body.members, f.labelKey) == Some(LabelJson(l, render));
    ReadLabelJson(l, f.labelKey, render);
    assert PeekedLabel(f, body) == Ok(l);
    IndexOfDistinct(f.labels, i);
  }

  /**
   * Encode then decode: the encoded object reaches the decoder of the value's own subtype,
   * so a subtype decoder that inverts its encoder gives back the value.
   */
  lemma EncodeDecodeRoundTrip<A>(f: Factory<A>, value: A, variantOf: A -> TypeName, fieldsOf: A -> seq<Member>,
                                 render: real -> string, adapterFor: SubtypeAdapter<A>)
    requires Valid(f)
    requires variantOf(value) in f.subtypes
    ensures ToJson(f, value, variantOf, fieldsOf, render).Ok?
    ensures var body := ToJson(f, value, variantOf, fieldsOf, render).value;
            FromJson(f, body, adapterFor) == Lift(adapterFor(variantOf(value), body))
    ensures var body := ToJson(f, value, variantOf, fieldsOf, render).value;
            adapterFor(variantOf(value), body) == Ok(Some(value)) ==> FromJson(f, body, adapterFor) == Ok(Some(value))
  {
    LabelRoundTrip(f, value, variantOf, fieldsOf, render);
  }

  // ---------------------------------------------------------------------------
  // Examples

  /** `intTypeOf(IntBase, "type")` with `Data` at 1 and `Data2` at 2. */
  lemma ExampleIntFactory<A>(f: Factory<A>, body: JValue, adapterFor: SubtypeAdapter<A>)
    requires f == WithSubtype(WithSubtype(NewFactory<A>("IntBase", IntLabel, "type"), "Data", LInt(1)).value,
                              "Data2", LInt(2)).value
    requires body == JObj([Member("type", JNum("1", 1.0)), Member("data", JStr("1"))])
    ensures Valid(f) && f.labels == [LInt(1), LInt(2)] && f.subtypes == ["Data", "Data2"]
    ensures FromJson(f, body, adapterFor) == Lift(adapterFor("Data", body))
  {
    assert Truncate(1.0) == 1;
    assert PeekedLabel(f, body) == Ok(LInt(1));
    FromJsonMatched(f, body, adapterFor, 0);
  }

  /** `stringTypeOf(StringBase, "type")` with `Data` at "type1" and `Data2` at "type2", read on "type3". */
  lemma ExampleUnregisteredLabel<A>(f: Factory<A>, body: JValue, adapterFor: SubtypeAdapter<A>, def: A)
    requires f == WithSubtype(WithSubtype(NewFactory<A>("StringBase", StringLabel, "type"), "Data", LString("type1")).value,
                              "Data2", LString("type2")).value
    requires body == JObj([Member("type", JStr("type3")), Member("data", JStr("1"))])
    ensures FromJson(f, body, adapterFor) == Err(UnmatchedLabel([LString("type1"), LString("type2")], "type", LString("type3")))
    ensures FromJson(WithDefaultValue(f, Some(def)), body, adapterFor) == Ok(Some(def))
    ensures FromJson(WithDefaultValue(f, None), body, adapterFor) == Ok(None)
  {
    assert f.labels == [LString("type1"), LString("type2")];
    assert f.labelKey == "type" && f.fallback == NoFallback;
    assert PeekedLabel(f, body) == Ok(LString("type3"));
    assert LString("type3") !in f.labels;
    FromJsonUnmatched(f, body, adapterFor);
    FromJsonUnmatched(WithDefaultValue(f, Some(def)), body, adapterFor);
    FromJsonUnmatched(WithDefaultValue(f, None), body, adapterFor);
  }

  /** A string label under an integer factory is a kind mismatch, not a lookup miss. */
  lemma ExampleLabelKindMismatch<A>(f: Factory<A>, adapterFor: SubtypeAdapter<A>)
    requires f.labelKind == IntLabel && f.labelKey == "type" && |f.labels| == |f.subtypes|
    ensures FromJson(f, JObj([Member("type", JStr("1"))]), adapterFor) == Err(LabelTypeMismatch(IntLabel, StringToken))
  {
  }
}
