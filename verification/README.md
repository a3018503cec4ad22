# NetSample response decoding, modelled in Dafny

This project models the two pure decoding components of the NetSample Android client:

* **The response-envelope converter** (`MoshiResponseBodyConverter`). It reads one JSON object holding
  `status`, `message`, `data` and `errors` in any order. A look-ahead pass captures `status` and
  `message`. The status `"0x000"` selects the success branch: `data` is then decoded as the call
  site's return shape, which is `Empty`, `Nullable<T>` or a plain `T`. Any other status raises a
  `ServerException(status, message, errorData)`. `errorData` is shaped by at most one of the
  `PrimitiveError`, `ObjectError` or `ArrayError` annotations.
* **The label-keyed polymorphic adapter** (`PolymorphicJsonAdapterFactory2` and its
  `PolymorphicJsonAdapter`). An immutable builder keeps parallel `labels` and `subtypes` lists with
  unique labels and an optional fallback. Decoding reads the first value under the label key,
  narrows it to the declared label class, finds its position and decodes the whole object with
  that subtype's decoder. Encoding writes the subtype's label first, then the subtype's fields.

The targets `TDouble`, `TLong`, `TInt`, `TFloat`, `TShort`, `TBoolean`, `TByte` and `TChar` stand for
the eight JVM primitive classes (`Int::class.java` and so on). Every other class is a `TClass`, including boxed
`java.lang.Integer`.

The Moshi token cursor and its look-ahead copy become an immutable JSON tree (`Json.JValue`). A
look-ahead pass is a second reading of the same value. The per-type decoders that Moshi generates
by reflection become function parameters: `Envelope.Adapter` and `Polymorphic.SubtypeAdapter`.
Like a Moshi adapter, each may fail or return null.
Exceptions become `Result` values. Their error datatypes carry what the exception message is built
from: the key, the token found, the registered labels.

Files:

* `wrappers.dfy`: `Option`, `Result`, and `Lists` (`Last`, `Distinct`, `IndexOf` as `List.indexOf`).
* `numeric.dfy`: JVM narrowing of a double to `Int`, `Long` and `Short`. It truncates toward zero,
  saturates at the 32- or 64-bit bounds, and wraps to 16 bits for `toShort`.
* `json.dfy`: the JSON tree, token kinds, and the per-name occurrence lists of an object.
* `envelope.dfy`: the converter (`convert`, `parse`, `findErrorAnn`) and its properties.
* `polymorphic.dfy`: the factory, `fromJson`/`labelIndex`/`toJson`, and their properties.

## Model

| member | source | states |
|---|---|---|
| `Numeric.Truncate` | app/src/main/java/com/jared/netsample/remote/converter/MoshiResponseBodyConverter.kt:216-219 | the result is the integer part of the double: at most the input and within one of it for non-negatives, symmetrically for negatives |
| `Numeric.DoubleToInt` | app/src/main/java/com/jared/netsample/remote/converter/MoshiResponseBodyConverter.kt:217 | `toInt()` is the truncation when it fits in 32 bits, and saturates to the nearer bound otherwise |
| `Numeric.DoubleToLong` | app/src/main/java/com/jared/netsample/remote/converter/MoshiResponseBodyConverter.kt:216 | `toLong()` is the truncation when it fits in 64 bits, and saturates to the nearer bound otherwise |
| `Numeric.IntToShort` | app/src/main/java/com/jared/netsample/remote/converter/MoshiResponseBodyConverter.kt:219 | `toShort()` lies in [-32768, 32767] and is congruent to its input modulo 2^16 |
| `Numeric.IntToShortUnique` | app/src/main/java/com/jared/netsample/remote/converter/MoshiResponseBodyConverter.kt:219 | the 16-bit wrap is the only short-range value congruent to its input, so it keeps the low 16 bits exactly |
| `Numeric.DoubleToShort` | app/src/main/java/com/jared/netsample/remote/converter/MoshiResponseBodyConverter.kt:219 | `toInt().toShort()` lies in [-32768, 32767], is congruent to `toInt()` modulo 2^16, and keeps any number whose truncation is already in that range |
| `Numeric.DoubleToShortExact` | app/src/main/java/com/jared/netsample/remote/converter/MoshiResponseBodyConverter.kt:219 | a number already in the short range survives `toInt().toShort()` unchanged |
| `Json.Occurrences` | app/src/main/java/com/jared/netsample/remote/converter/MoshiResponseBodyConverter.kt:196-238 | the values under one name are exactly the members with that name; the list is empty iff no member has the name |
| `Json.FirstOccurrence` | app/src/main/java/com/jared/netsample/remote/moshi/PolymorphicJsonAdapterFactory2.java:228-237 | a single-name scan finds the first value under the name, and nothing iff the name is absent |
| `Envelope.Narrow` | app/src/main/java/com/jared/netsample/remote/converter/MoshiResponseBodyConverter.kt:212-221 | for the primitive `int`/`long` classes a number is truncated into their range; for `short` it lands in [-32768, 32767], congruent to the `toInt()` value; `float` and every other class, boxed ones included, keep the number |
| `Envelope.DecodeValue` | app/src/main/java/com/jared/netsample/remote/converter/MoshiResponseBodyConverter.kt:199-229 | JSON null decodes to null. A string token decodes to its string, a boolean to its boolean, and a number to its narrowing under the target class. An object or array decodes iff the type's adapter succeeds. It is null exactly when the adapter returns null, and otherwise it holds what the adapter returned. Every failure is the adapter's |
| `Envelope.ParseSeesOnlyKey` | app/src/main/java/com/jared/netsample/remote/converter/MoshiResponseBodyConverter.kt:196-238 | the payload scan depends only on the values stored under its target name; unknown names and the other known names are skipped |
| `Envelope.Parse` | app/src/main/java/com/jared/netsample/remote/converter/MoshiResponseBodyConverter.kt:193-241 | `parse` equals the reference reading of the values under its name: decode them in order, keep the last, stop at a failure. With the name absent it is null |
| `Envelope.DecodeEachKeepsLast` | app/src/main/java/com/jared/netsample/remote/converter/MoshiResponseBodyConverter.kt:196-230 | decoding a run of values keeps the last value when all decode, and fails with the failure of one of them otherwise |
| `Envelope.ParseSelectsLastOccurrence` | app/src/main/java/com/jared/netsample/remote/converter/MoshiResponseBodyConverter.kt:193-241 | the payload is the last occurrence of the target name, or null when the name is absent; a failing occurrence makes the scan fail |
| `Envelope.IntegralNumberDecodesExactly` | app/src/main/java/com/jared/netsample/remote/converter/MoshiResponseBodyConverter.kt:212-217 | an integral number in the 32-bit range decodes under an `Int` target as exactly that integer |
| `Envelope.ReadString` | app/src/main/java/com/jared/netsample/remote/converter/MoshiResponseBodyConverter.kt:104-107 | `nextString()` accepts exactly string and number tokens. A string reads as itself and a number as its literal text. Any other token fails, naming the key and the token |
| `Envelope.LookAheadFindsLastStrings` | app/src/main/java/com/jared/netsample/remote/converter/MoshiResponseBodyConverter.kt:100-118 | from any starting header, the look-ahead loop succeeds iff every `status` and `message` value is a string or number token; it then holds the last value of each, or the starting one when there is none |
| `Envelope.LookAhead` | app/src/main/java/com/jared/netsample/remote/converter/MoshiResponseBodyConverter.kt:95-119 | the look-ahead pass succeeds iff every `status` and `message` value is a string or number token; it then holds the last value of each, and nothing for an absent name |
| `Envelope.LookAheadSeesOnlyHeader` | app/src/main/java/com/jared/netsample/remote/converter/MoshiResponseBodyConverter.kt:95-119 | when every `status` and `message` value is a string or number token, the look-ahead result depends only on those values, not on where other members stand |
| `Envelope.FindErrorAnnotation` | app/src/main/java/com/jared/netsample/remote/converter/MoshiResponseBodyConverter.kt:243-252 | more than one error annotation is an `IllegalArgumentException`; none gives null; otherwise the result is an error annotation of the call site |
| `Envelope.SingleErrorAnnotationFound` | app/src/main/java/com/jared/netsample/remote/converter/MoshiResponseBodyConverter.kt:243-252 | with exactly one error annotation, that annotation is the one found |
| `Envelope.ErrorTarget` | app/src/main/java/com/jared/netsample/remote/converter/MoshiResponseBodyConverter.kt:164-175 | `errors` is decoded as the annotation's class for `PrimitiveError` and `ObjectError`, and as a list of that class for `ArrayError` |
| `Envelope.DecodeData` | app/src/main/java/com/jared/netsample/remote/converter/MoshiResponseBodyConverter.kt:128-160 | the success branch returns the `Empty` marker exactly in `Empty` mode and a `Nullable` wrapper exactly in `Nullable<T>` mode. A raw `Nullable` is an `IllegalArgumentException`. A failing `data` decode is a data error carrying that failure. A plain result is never null |
| `Envelope.DecodeErrors` | app/src/main/java/com/jared/netsample/remote/converter/MoshiResponseBodyConverter.kt:162-179 | the failure branch never returns a value. A server failure it raises carries the given status and message. An `ArrayError` of any of the eight primitive classes is rejected, exactly when that is the annotation found. An `errors` value that fails to decode makes the result a data error carrying that failure instead of a server failure |
| `Envelope.Convert` | app/src/main/java/com/jared/netsample/remote/converter/MoshiResponseBodyConverter.kt:78-191 | a non-object body is a data error; a value is returned only when the look-ahead found status `"0x000"` and a message |
| `Envelope.MissingHeaderFails` | app/src/main/java/com/jared/netsample/remote/converter/MoshiResponseBodyConverter.kt:95-121 | with `status` or `message` absent the conversion is a data error, in every mode and with any annotations. When the other header values are readable, the error names the missing field |
| `Envelope.BranchOnStatus` | app/src/main/java/com/jared/netsample/remote/converter/MoshiResponseBodyConverter.kt:124-181 | success only for status `"0x000"`, and then the result is the success branch's; any other status is an error; a `ServerException` carries exactly the status and message read |
| `Envelope.SuccessBranchFailures` | app/src/main/java/com/jared/netsample/remote/converter/MoshiResponseBodyConverter.kt:134-159 | on the success branch a raw `Nullable` is an `IllegalArgumentException`, and a `data` value that fails to decode makes the conversion a data error carrying that value's failure |
| `Envelope.IgnoredModeIgnoresData` | app/src/main/java/com/jared/netsample/remote/converter/MoshiResponseBodyConverter.kt:130-133 | in `Empty` mode a success envelope yields the `Empty` marker whatever `data` holds, or if it is absent |
| `Envelope.OptionalModeWrapsData` | app/src/main/java/com/jared/netsample/remote/converter/MoshiResponseBodyConverter.kt:134-148 | in `Nullable<T>` mode the result is `Nullable(decoded data)`; an absent or null `data` gives `Nullable(null)` |
| `Envelope.RequiredModeRejectsNull` | app/src/main/java/com/jared/netsample/remote/converter/MoshiResponseBodyConverter.kt:150-159 | in plain `T` mode a null payload fails with "'data' is not Nullable<>". Absent `data`, JSON null, and an object the adapter decodes to null all count as null. Any other payload is returned decoded |
| `Envelope.PayloadNullExactly` | app/src/main/java/com/jared/netsample/remote/converter/MoshiResponseBodyConverter.kt:193-241 | the payload is null exactly when the name is absent, its last value is JSON null, or its last value is an object or array the adapter decodes to null |
| `Envelope.FailureWithoutDescriptor` | app/src/main/java/com/jared/netsample/remote/converter/MoshiResponseBodyConverter.kt:162-179 | on a failure status without an error annotation, `errorData` is null |
| `Envelope.FailureWithDescriptor` | app/src/main/java/com/jared/netsample/remote/converter/MoshiResponseBodyConverter.kt:164-178 | on a failure status with one error annotation, `errorData` is `errors` decoded as its class, or as a list of that class for `ArrayError`. An `ArrayError` of a primitive class is an `IllegalArgumentException`. An `errors` value that fails to decode makes the conversion a data error carrying that value's failure |
| `Envelope.SeveralDescriptorsRejectedOnFailure` | app/src/main/java/com/jared/netsample/remote/converter/MoshiResponseBodyConverter.kt:243-249 | several error annotations fail with `IllegalArgumentException` on a failure status, and change nothing on a success status |
| `Envelope.KeyOrderIrrelevant` | app/src/main/java/com/jared/netsample/remote/converter/MoshiResponseBodyConverter.kt:193-241 | take two envelopes whose `status` and `message` values are all string or number tokens. If they hold the same values under each of the four names, in the same relative order, they convert identically, wherever the members stand |
| `Envelope.ExampleIntPayload` | app/src/test/java/com/jared/netsample/remote/converter/MoshiResponseBodyConverterTest.kt:98-115 | `{"status":"0x000","message":"success","data":99}` for a call returning boxed `java.lang.Integer` gives the double 99.0, in three key orders |
| `Envelope.ExamplePrimitiveError` | app/src/test/java/com/jared/netsample/remote/converter/MoshiResponseBodyConverterTest.kt:207-230 | `{"status":"0x129","message":"failure","errors":"errorMsg1"}` under `@PrimitiveError(String::class)` is a `ServerException` carrying the string `"errorMsg1"` |
| `Polymorphic.NewFactory` | app/src/main/java/com/jared/netsample/remote/moshi/PolymorphicJsonAdapterFactory2.java:64-103 | a fresh factory has no subtypes and no fallback, and satisfies the builder invariant |
| `Polymorphic.WithSubtype` | app/src/main/java/com/jared/netsample/remote/moshi/PolymorphicJsonAdapterFactory2.java:109-121 | fails exactly on a duplicate label; otherwise both lists grow by the new pair, the other fields are kept, the invariant holds again and the new label is found at the old length |
| `Polymorphic.WithFallback` | app/src/main/java/com/jared/netsample/remote/moshi/PolymorphicJsonAdapterFactory2.java:130-134 | only the fallback changes, and the builder invariant is preserved |
| `Polymorphic.WithDefaultValue` | app/src/main/java/com/jared/netsample/remote/moshi/PolymorphicJsonAdapterFactory2.java:140-151 | the fallback becomes a default value, which may be null and stays distinct from no fallback; every other field and the builder invariant are kept |
| `Polymorphic.ReadLabel` | app/src/main/java/com/jared/netsample/remote/moshi/PolymorphicJsonAdapterFactory2.java:237-267 | null fails as "value is null"; numbers are narrowed to Integer, Short or Long labels or kept for Double; any other kind mismatch is a decode error; a result fits the declared kind |
| `Polymorphic.PeekedLabel` | app/src/main/java/com/jared/netsample/remote/moshi/PolymorphicJsonAdapterFactory2.java:228-284 | only the first value under the label key is read; a missing key fails with "Missing label" |
| `Polymorphic.LabelIndex` | app/src/main/java/com/jared/netsample/remote/moshi/PolymorphicJsonAdapterFactory2.java:269-281 | a registered label gives the position holding it, unique when labels are unique; an unregistered one fails without a fallback and gives -1 with one |
| `Polymorphic.FromJson` | app/src/main/java/com/jared/netsample/remote/moshi/PolymorphicJsonAdapterFactory2.java:212-226 | label errors propagate unchanged. A null result comes from a null default value, or from the matched subtype's decoder returning null. A subtype failure is the matched decoder's failure |
| `Polymorphic.FromJsonMatched` | app/src/main/java/com/jared/netsample/remote/moshi/PolymorphicJsonAdapterFactory2.java:221-225 | a label at position `i` hands the entire object, label included, to `subtypes[i]`'s decoder. `Lift` passes on its result: a value, null, or its failure as a subtype failure |
| `Polymorphic.FromJsonUnmatched` | app/src/main/java/com/jared/netsample/remote/moshi/PolymorphicJsonAdapterFactory2.java:271-280 | an unregistered label fails with "Expected one of [labels]" without a fallback and returns the default value with one |
| `Polymorphic.MissingOrNullLabelFails` | app/src/main/java/com/jared/netsample/remote/moshi/PolymorphicJsonAdapterFactory2.java:228-284 | an object without the label key fails with "Missing label"; a null first label value fails with "value is null" |
| `Polymorphic.FallbackStatesDiffer` | app/src/main/java/com/jared/netsample/remote/moshi/PolymorphicJsonAdapterFactory2.java:140-151 | on an unregistered label, no fallback fails while a null default returns null |
| `Polymorphic.ReadLabelJson` | app/src/main/java/com/jared/netsample/remote/moshi/PolymorphicJsonAdapterFactory2.java:308-310 | a label that `LabelJson` writes, as `writer.jsonValue(labels.get(i))` does, reads back as the same label under its own kind |
| `Polymorphic.ToJson` | app/src/main/java/com/jared/netsample/remote/moshi/PolymorphicJsonAdapterFactory2.java:287-316 | an unregistered subtype is an error whatever the fallback. Otherwise the object starts with `labelKey` holding the label at the first position that holds the value's subtype, followed by the subtype's fields |
| `Polymorphic.LabelRoundTrip` | app/src/main/java/com/jared/netsample/remote/moshi/PolymorphicJsonAdapterFactory2.java:287-316 | decoding the encoding of a registered value selects the position whose label was written, and it holds the value's subtype |
| `Polymorphic.EncodeDecodeRoundTrip` | app/src/main/java/com/jared/netsample/remote/moshi/PolymorphicJsonAdapterFactory2.java:212-316 | an encoded value reaches its own subtype's decoder, so a decoder that inverts its encoder gives the value back |
| `Polymorphic.ExampleIntFactory` | app/src/test/java/com/jared/netsample/remote/moshi/PolymorphicJsonAdapterFactory2Test2.kt:15-46 | `{"type":1,"data":"1"}` under labels {1 to Data, 2 to Data2} goes whole to `Data`'s decoder |
| `Polymorphic.ExampleUnregisteredLabel` | app/src/test/java/com/jared/netsample/remote/moshi/PolymorphicJsonAdapterFactory2Test2.kt:153-233 | label "type3" against {"type1", "type2"} fails naming both labels and "type3"; a default value is returned instead; a null default gives null |
| `Polymorphic.ExampleLabelKindMismatch` | app/src/main/java/com/jared/netsample/remote/moshi/PolymorphicJsonAdapterFactory2.java:259-267 | a string label under an integer factory is a label-type error |

## Behaviour worth noting

* Several error annotations are rejected when the failure branch runs, not when the call site is
  set up. A success envelope never looks at them.
* Label uniqueness is checked by `withSubtype` as each pair is added. There is no separate build step.
* Subtypes need not be distinct. `withSubtype(Child, 1).withSubtype(Child, 2)` is accepted, and
  `toJson` writes the label of the first position holding the subtype. The round trip still holds
  at the level of subtypes: `LabelRoundTrip` selects a position holding the value's own subtype.
* The number dispatch in `parse` compares the declared type against the primitive classes only.
  A suspend function's return type reaches the converter boxed, so `Int`, `Nullable<Int>` and the
  like receive a `Double`. `ExampleIntPayload` shows this for the call returning `Int`.
* `parse` calls `lenient()`, `failOnUnknown()` and `serializeNulls()` on the adapter but discards the
  adapters these calls return. The flags therefore have no effect, and the model has none.
* Numeric narrowing always truncates toward zero. `Short` is `toInt()` followed by a 16-bit wrap;
  there is no rounding to nearest.
* A numeric label is narrowed to the label class before it is compared. A label `1.9` under an
  integer factory selects label 1.
* On the failure branch `errors` is decoded only when an error annotation is present.
* `@ArrayError` with a primitive class such as `Int::class` or `Boolean::class` asks Moshi's `Types.newParameterizedType`
  for a list of a primitive type. That call accepts only boxed type arguments, so it throws
  `IllegalArgumentException` before `errors` is read.
* The label classes `Long` and `Short` are handled by `labelIndex`, but none of the four public
  constructors (`intTypeOf`, `stringTypeOf`, `booleanTypeOf`, `doubleTypeOf`) creates a factory of
  either class. Those branches are unreachable through the public API. The model keeps them.
* The default-value fallback skips the whole object before returning the default value.

## Left out

* Transport: Retrofit/OkHttp call adapters, `ResponseBody`/okio handling, and UTF-8 BOM skipping.
  These are I/O and call lifecycle, not decoding.
* JSON lexing and malformed input. The model starts from a parsed tree. The cursor's own errors,
  `checkNotNull(type)` and the "Expected a value" `IllegalStateException` cannot arise on a tree.
* Reflection: Moshi's per-type adapters and the annotations passed to `moshi.adapter`. They are
  abstract parameters. `create`'s raw-type and annotation matching and the `nullSafe()` wrapper
  are reflection and are not modelled either, so a top-level JSON null given to `FromJson` is the
  "not an object" error.
* Floating point: numbers are exact reals. `Float` targets keep the number (`toFloat()` rounding is
  left out). The Float label kind is not modelled. A number outside the double range, such as
  `1e400`, is valid JSON, but `nextDouble()` rejects it with `JsonEncodingException`. The model keeps
  such a number as an exact real and narrows it.
* The text `nextString()` returns for a number token is the literal text stored in the tree.
  Moshi's normalisation of long literals is not modelled.
* Reader positions. The model is pure, so "the primary reader is still at the start of the object
  after an unmatched label" has no counterpart. The peek cursor never consumes the primary input,
  and the fallback's `skipValue` only consumes.
* `withFallbackJsonAdapter` with an arbitrary user adapter. Only `null` (no fallback) and the
  default-value adapters of `withDefaultValue` are modelled, because a user adapter is arbitrary code.
* Null checks on builder arguments (`baseType`, `labelKey`, `subtype`, `label`). Dafny values cannot be null.
* The label type `V` is enforced by Java generics. `WithSubtype` accepts any label, and its invariant
  preservation assumes the label fits the factory's kind.
* The JSON writer: `toJson` takes the subtype's fields (`fieldsOf`) and the writer's number text
  (`render`) as parameters. Flattening is list concatenation. A writer left half-written after the
  fallback's `toJson` throws is not modelled.
* Moshi's `Types.newParameterizedType` is not part of this model. The model assumes only the
  behaviour described above: it rejects a primitive type argument.
* Exception message strings. Each error value carries the pieces its message is built from.
* `Envelope.DecodeEachKeepsLast`: states that a failure is the failure of one of the decoded values,
  not that it is the first failing one. `KeyOrderIrrelevant` still shows the failure is fixed by the
  per-name values.
* `Envelope.ParseSelectsLastOccurrence`: the same weakening for the failure case as `DecodeEachKeepsLast`.
