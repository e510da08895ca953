# DNXtensions: JSON helpers, the record envelope and IList.AddRange

DNXtensions is a small C# library of helpers for ASP.NET services. This project models three parts of it:

- `Json`, a façade over System.Text.Json. It has two option profiles: the default one omits null properties, and the "with nulls" one writes them. Its lenient boolean converter accepts `true`, `"TRUE"` and `1`. Its nullable-enum converter turns an unknown name into null instead of failing. `DeserializeInto` overlays a partial JSON object onto an existing object, property by property, with names matched ignoring case.
- `Record<T>`, the storage envelope. A row keeps an id, two timestamps, a type name and the JSON text of a `T`. Its `Detail` property decodes that text on every read and encodes a value into it on every write.
- `InterfaceExtensions.AddRange`, which appends a sequence to any `IList<T>`. It takes the bulk path on a `List<T>` and adds one element at a time on any other list.

The model is organised as follows.

- A JSON token is the datatype `JsonValue.Json`. Numbers are `real`.
- Every .NET exception the core can raise becomes an `Error` in a `Result` (module `Results`).
- The converters are pure functions on tokens (module `Converters`).
- The option profiles and the serializer entry points are in module `Serializer`.
  - The rest of System.Text.Json, meaning how it reads a property of any other type, is a function parameter `Engine`.
  - The whole-document parser and writer are the two functions held by a `TypeInfo<T>`.
- `DeserializeInto` is a method that updates a `Target` object's property values in place (module `Merge`). It is proved against `MergePlan`, a fold over the patch members. That fold is what the merge lemmas talk about.
- `Record<T>` is a class whose fields the setter updates (module `Records`).
- The `IList<T>` is a class holding its elements and run-time kind, and `AddRange` loops over it (module `InterfaceExtensions`).

Where the code does something other than what one might expect from the library's description, the model follows the code:

- An enum name that matches no member becomes null (`default` of `T?`), not the enum's default member.
- `bool.Parse` also accepts text with surrounding white space and `'\0'` characters, so `" true "` reads as true.
- `Enum.TryParse` trims white space. A case-insensitive lookup returns the first matching member in value order.
- `DeserializeInto` raises `ArgumentException` when two properties have the same lower-cased name. This comes from `ToDictionary`.
- `DeserializeInto` raises `ArgumentException` when a named property is read-only. This comes from `SetValue`, after the value has been decoded.
- `DeserializeInto` raises `InvalidOperationException` when the patch is not an object. This comes from `EnumerateObject`.
- When the patch repeats a name, the last occurrence wins.
- An exception in the middle of the merge leaves the earlier writes in place.

## Model

| member | source | states |
|---|---|---|
| Converters.ReadBoolean | DNXtensions/Json.cs:44-51 | `BooleanConverter.Read` itself: a JSON boolean reads as itself. JsonException comes exactly from null, and InvalidOperationException exactly from an array or object (from `GetString`). FormatException comes only from a string; no other error occurs |
| Converters.WriteBoolean | DNXtensions/Json.cs:52-53 | the token written is a JSON boolean, and the boolean converter reads it back as the same value |
| Converters.ReadBooleanTable | DNXtensions/Json.cs:44-51 | the complete table of the boolean converter. It gives true exactly for `true`, a non-zero number, or a string equal to "true" ignoring case after trimming white space and '\0'. It gives false for the mirror cases. It gives FormatException for any other string, JsonException for null, and InvalidOperationException for an array or object. The serializer rethrows the last one as JsonException (see Serializer.DefaultProfileConverters) |
| Converters.ParseBoolOfLowered | DNXtensions/Json.cs:50 | lower-casing the string before `bool.Parse` changes nothing: the result depends only on the trimmed, lower-cased text |
| Converters.BooleanTestCases | DNXtensionsTests/JsonTests.cs:11-20 | the ten accepted inputs of the boolean test read as expected, and "yes" raises FormatException |
| Text.TrimLower | DNXtensions/Json.cs:50 | trimming and lower-casing commute whenever the trimmed characters are closed under lower-casing |
| Text.TrimStartLower | DNXtensions/Json.cs:50 | trimming the start commutes with lower-casing |
| Text.TrimEndLower | DNXtensions/Json.cs:50 | trimming the end commutes with lower-casing |
| Text.TrimIdentity | DNXtensions/Json.cs:50 | text whose first and last characters are not trimmed is returned whole |
| Text.LowerIdempotent | DNXtensions/Json.cs:50 | lower-casing twice equals lower-casing once |
| Converters.IndexOf | DNXtensions/Json.cs:70 | the exact-case `Enum.TryParse` lookup: the first member with that name, or none exactly when no member has it |
| Converters.IndexOfIgnoreCase | DNXtensions/Json.cs:70 | the ignore-case `Enum.TryParse` lookup: the first member equal ignoring case, or none when no member matches |
| Converters.ReadNullableEnum | DNXtensions/Json.cs:67-76 | the nullable-enum converter succeeds exactly on null and string tokens. Other tokens raise InvalidOperationException, which the serializer rethrows as JsonException. Null reads as null. For a trimmed string, an exact match wins, otherwise the first match ignoring case. The result is null exactly when no member matches in any case, and the index is always a member |
| Converters.CamelCase | DNXtensions/Json.cs:78 | the camel-case policy keeps the length, changes characters only by lower-casing them, always lowers the first character, and leaves the rest alone when the second character is not upper case |
| Converters.CamelCaseIgnoringCase | DNXtensions/Json.cs:78 | a camel-cased name equals the original ignoring case |
| Converters.CamelCaseIsUntrimmed | DNXtensions/Json.cs:69-78 | trimming leaves the camel-cased text of a valid member name unchanged |
| Converters.WriteNullableEnum | DNXtensions/Json.cs:77-78 | null is written as a JSON null and nothing else is. A member is written as its camel-cased name, so by CamelCase's contract the first letter is lowered. The text equals the member name ignoring case |
| Converters.EnumRoundTrip | DNXtensions/Json.cs:67-78 | for an enum whose names are valid identifiers and distinct ignoring case, reading what the converter writes gives back the same nullable value |
| Converters.EnumReadReadOnly | DNXtensionsTests/JsonTests.cs:43 | the exact name "ReadOnly" reads as FileAttributes.ReadOnly |
| Converters.EnumReadCamelReadOnly | DNXtensionsTests/JsonTests.cs:42 | the camel-cased "readOnly", which no member spells exactly, reads as FileAttributes.ReadOnly ignoring case |
| Converters.EnumReadNormal | DNXtensionsTests/JsonTests.cs:44 | "NORMAL" reads as FileAttributes.Normal |
| Converters.EnumReadNull | DNXtensionsTests/JsonTests.cs:45-46 | null and the unknown name "unknown" both read as null |
| Converters.EnumWriteTestCases | DNXtensionsTests/JsonTests.cs:61-79 | ReadOnly is written as "readOnly", Normal as "normal", and null as a JSON null. The nullable cases are lines 70-71 and 77-78. The ReadOnly case at lines 63-64 is a non-nullable enum, which the library's `JsonStringEnumConverter` writes; it uses the same camel-case policy, so `EnumConverter<T>.Write` stands in for it here |
| Serializer.CreateOptions | DNXtensions/Json.cs:34-40 | both profiles use the Web defaults, case-insensitive property names and the three converters in order. The ignore condition is Never exactly when writeNulls |
| Serializer.ProfilesReadAlike | DNXtensions/Json.cs:30-40 | both profiles read every slot, for every engine, type and token, exactly alike |
| Serializer.ProfilesDifferOnlyInNulls | DNXtensions/Json.cs:30-39 | the "with nulls" profile is the default profile with only the ignore condition changed, and the default omits nulls |
| Serializer.ConverterFor | DNXtensions/Json.cs:56-66 | the converter chosen for a property type is the first in the list that can convert it. None is chosen exactly when no converter in the list can |
| Serializer.DefaultProfileConverters | DNXtensions/Json.cs:37-79 | under the default profile a bool goes through the lenient boolean converter, a non-null bool? through the same converter, and a nullable enum through the nullable-enum converter. A converter's InvalidOperationException from `GetString` surfaces as JsonException, and FormatException passes unchanged. Every other type goes to the engine |
| Serializer.ConverterErrorsAreJsonErrors | DNXtensions/Json.cs:44-76 | through the serializer, the custom converters raise only JsonException or FormatException. An array or object for bool, and any token other than null or a string for an enum `T?`, give JsonException |
| Serializer.ReadSlot | DNXtensions/Json.cs:16-17 | the per-slot read: bool? maps a null token to null and otherwise reads as bool. A type with no registered converter is the engine's. InvalidOperationException can come only from the engine |
| Serializer.Deserialize | DNXtensions/Json.cs:13-16 | succeeds exactly when the engine produces a non-null value. A null result raises JsonException, and an engine error is passed on unchanged |
| Serializer.Serialize | DNXtensions/Json.cs:18 | the engine's text under the default profile: Web defaults, the three converters, case-insensitive names, nulls omitted |
| Serializer.SerializeWithNulls | DNXtensions/Json.cs:30 | the engine's text under the default profile with only the ignore condition changed to Never |
| Serializer.SerializeDeserializeRoundTrip | DNXtensions/Json.cs:16-18 | whenever the engine reads back what it writes, `Deserialize(Serialize(v))` is `v` |
| Serializer.DeserializeDynamic | DNXtensions/Json.cs:17 | the per-member decoder as written: it agrees with the default-profile read when that read is non-null, raises JsonException when it is null, and otherwise fails with the read's error, which is JsonException for a converter's wrong-shaped token |
| Serializer.DynamicEnumRejectsUnknownNames | DNXtensions/Json.cs:67-76 | a string given to a nullable-enum property fails in that decoder exactly when the enum converter maps it to null, i.e. when no member matches it in any case |
| Serializer.DeserializeFieldLenient | DNXtensions/Json.cs:17-26 | the corrected per-member decoder is the plain default-profile read, and it agrees with the as-written decoder wherever that one succeeds |
| Serializer.LenientEnumAcceptsEveryName | DNXtensions/Json.cs:67-76 | with the corrected decoder, every string succeeds on a nullable-enum property, and it reads as null exactly when no member matches |
| Merge.Step | DNXtensions/Json.cs:24-26 | one loop iteration. After an exception, or for a null or unknown member, nothing changes. At most the named slot is written, and every other slot keeps its write. A completed write of a named slot requires a setter and holds the member's decoding |
| Merge.PlanOf | DNXtensions/Json.cs:24-26 | the loop as a fold over the members: every write is to a property of the type |
| Merge.MergePlan | DNXtensions/Json.cs:20-28 | the whole merge. It completes only with distinct lower-cased names and an object patch, writes only properties of the type, and on a name collision raises ArgumentException with no write |
| Merge.BuildTable | DNXtensions/Json.cs:22-23 | the lower-cased name dictionary is built exactly when the lower-cased property names are distinct, otherwise ArgumentException; each key maps to the property with that lower-cased name |
| Merge.TableLookup | DNXtensions/Json.cs:22-25 | a lookup hits property i exactly for its lower-cased name |
| Merge.FailureSticks | DNXtensions/Json.cs:24-26 | once a member raises, the rest of the patch is not applied |
| Merge.WritesOnlyNamedSlots | DNXtensions/Json.cs:24-26 | the merge writes only properties that some non-null patch member names ignoring case |
| Merge.LastNaming | DNXtensions/Json.cs:24-25 | the last non-null patch member that names a property, or none when no member names it |
| Merge.SuccessfulPlan | DNXtensions/Json.cs:24-26 | when the merge completes, each property named by a non-null member holds the decoding of the last such member, and every other property keeps its value |
| Merge.IrrelevantMembers | DNXtensions/Json.cs:25 | members with null values or unknown names change nothing and raise nothing |
| Merge.DeserializeInto | DNXtensions/Json.cs:20-28 | the destination's values become the old values overlaid with the plan's writes, in place. It returns the destination when the plan completes, otherwise the plan's error, with the writes made before the error kept |
| Merge.MergePlanSpec | DNXtensions/Json.cs:20-28 | colliding lower-cased property names raise before any write, a patch that is not an object raises InvalidOperationException, only named properties are written, and on success the last naming member wins |
| Merge.MergeIgnoresUnknownAndNull | DNXtensions/Json.cs:25 | a patch of only null or unknown members leaves the object untouched |
| Merge.MergeIdempotent | DNXtensions/Json.cs:20-28 | applying the same patch's writes twice gives the same values as applying them once |
| Merge.OverlayIdempotent | DNXtensions/Json.cs:26 | overlaying the same writes twice equals overlaying them once |
| Merge.OptEnumTable | DNXtensionsTests/JsonTests.cs:84 | the name table of a type with one `FileAccess?` property OptEnum maps "optenum" to it |
| Merge.UnknownEnumAbortsMerge | DNXtensions/Json.cs:17-26 | as written, merging `{"optEnum":"unknown"}` into a `FileAccess?` property writes nothing and raises JsonException |
| Merge.UnknownEnumMergesAsNull | DNXtensions/Json.cs:20-28 | with the corrected decoder, the same patch completes and sets the property to null |
| Records.Record.constructor | DNXtensions/Record.cs:9-15 | a new record has Id 0, JSON text "{}", Type the name of T, and Created and Modified each the clock reading taken when it was initialised |
| Records.Record.Detail | DNXtensions/Record.cs:18-20 | the getter succeeds exactly when the stored text parses to a non-null T under the default profile, and then yields that value. A null parse raises JsonException, and a parse error is passed on |
| Records.Record.SetDetail | DNXtensions/Record.cs:21 | the setter replaces the text with the value's default-profile encoding and changes no other field. Reading Detail afterwards decodes that text, which gives back the value whenever the engine round-trips it |
| Records.StampAndReplace | DnxSampleApi/Controllers/FooController.cs:48-51 | the sample update stamps Modified, stores the new value's encoding, and keeps Id, Created and Type |
| InterfaceExtensions.ListRef.Add | DNXtensions/InterfaceExtensions.cs:14 | `IList<T>.Add` appends one element, except on a read-only or fixed-size list, where it raises NotSupportedException and changes nothing |
| InterfaceExtensions.ListRef.AddRangeBulk | DNXtensions/InterfaceExtensions.cs:10-11 | `List<T>.AddRange` appends the whole source in order |
| InterfaceExtensions.Appended | DNXtensions/InterfaceExtensions.cs:8-15 | appending keeps the old elements in place, follows them with the source in order, and changes nothing for an empty source |
| InterfaceExtensions.AddRange | DNXtensions/InterfaceExtensions.cs:8-15 | both paths leave the list as the old elements followed by the source. A read-only list raises NotSupportedException at the first element and is unchanged; with an empty source it raises nothing |

## Left out

- Converters.ReadBoolean: numbers are `real`, so `System.Decimal`'s range and 28-digit precision are not modelled. Neither is the FormatException that `GetDecimal` raises on an out-of-range number, which the serializer rethrows as JsonException.
- Converters.ReadNullableEnum: the numeric and comma-separated flag forms that `Enum.TryParse` also accepts ("9", "ReadOnly, Hidden") are not modelled. Only member names are looked up.
- Text.Lower: culture-sensitive lowering is modelled as ASCII lowering, and non-ASCII case mappings are not modelled.
- The `Trace.TraceError` diagnostic for an unknown enum name is output only and is left out.
- Whole-object serialization is the `TypeInfo` functions. Property naming, omitting nulls, and the output of the non-nullable `JsonStringEnumConverter` belong to System.Text.Json and are not modelled.
- `JsonStringNullableEnumConverter.CreateConverter` is reflection. The model dispatches straight to the converter for the enum's member list.
- `GetRawText` followed by a re-parse is taken to give back the same token.
- A destination that is a struct is boxed by `SetValue`, so the caller never sees the writes. Only class destinations are modelled.
- InterfaceExtensions.AddRange: a source that is the destination itself, so that it grows while being enumerated, is not modelled. The source is a value sequence.
- `DateTimeOffset.UtcNow` is a parameter of the `Record` constructor.
- The Entity Framework persistence around `Record` is not modelled.

## Findings

| source | as written | input that shows it | evidently intended | confidence | as-written member | corrected member |
|---|---|---|---|---|---|---|
| DNXtensions/Json.cs:26 | each patch member is decoded by `Deserialize(string, Type)` (line 17), which raises JsonException whenever the decoded value is null | the patch `{"optEnum":"unknown"}` on a `FileAccess?` property: the enum converter maps the unknown name to null, so the merge raises | the lenient enum reading that `Deserialize<T>` shows, where an unknown name sets the property to null, applies to partial updates too | not executed | Merge.UnknownEnumAbortsMerge | Merge.UnknownEnumMergesAsNull |
