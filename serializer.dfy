/**
 * The entry points of the static Json class: the two option profiles, the choice of converter
 * for a declared type, and the Deserialize/Serialize overloads. The general-purpose engine
 * (System.Text.Json's own handling of numbers, strings, dates, objects and arrays) is not
 * modelled: every operation takes it as a function parameter.
 */
module Serializer {
  import opened Results
  import opened JsonValue
  import Converters
  import Text

  datatype IgnoreCondition = Never | WhenWritingNull

  /** The converters CreateOptions registers; StringEnumConverter is JsonStringEnumConverter(CamelCase). */
  datatype Converter = BooleanConverter | NullableEnumConverter | StringEnumConverter

  /** The JsonSerializerOptions settings CreateOptions chooses, on top of the Web defaults. */
  datatype Options = Options(
    webDefaults: bool,
    converters: seq<Converter>,
    propertyNameCaseInsensitive: bool,
    defaultIgnoreCondition: IgnoreCondition)

  /** CreateOptions: the Web defaults, the three converters, case-insensitive names, and null omission unless writeNulls. */
  function CreateOptions(writeNulls: bool): (o: Options)
    ensures o.webDefaults && o.propertyNameCaseInsensitive
    ensures o.converters == [BooleanConverter, NullableEnumConverter, StringEnumConverter]
    ensures o.defaultIgnoreCondition == Never <==> writeNulls
  {
    Options(true, [BooleanConverter, NullableEnumConverter, StringEnumConverter], true,
            if writeNulls then Never else WhenWritingNull)
  }

  const DefaultOptions: Options := CreateOptions(false)

  /** The two profiles: equal in everything but whether null properties are written. */
  lemma ProfilesDifferOnlyInNulls()
    ensures CreateOptions(true) == DefaultOptions.(defaultIgnoreCondition := Never)
    ensures DefaultOptions.defaultIgnoreCondition == WhenWritingNull
  {
  }

  /** The declared type of a slot, as far as the custom converters tell types apart. */
  datatype Kind =
    | BoolKind(nullable: bool)                         // bool or bool?
    | EnumKind(members: seq<string>, nullable: bool)   // an enum T or T?
    | OtherKind(typeName: string)                      // numbers, strings, dates, objects, arrays

  /** A decoded slot value; what the general engine produces stays opaque. */
  datatype Value = Null | Bool(b: bool) | Enum(index: nat) | Opaque(payload: Json)

  /** What System.Text.Json does for a slot by itself, with no custom converter. */
  type Engine = (Kind, Json) -> Result<Value>

  /** The CanConvert test of each converter. */
  predicate CanConvert(c: Converter, kind: Kind)
  {
    match c
    case BooleanConverter => kind == BoolKind(false)
    case NullableEnumConverter => kind.EnumKind? && kind.nullable
    case StringEnumConverter => kind.EnumKind? && !kind.nullable
  }

  /** The serializer uses the first registered converter that can convert the type: its position, if any. */
  function ConverterFor(converters: seq<Converter>, kind: Kind): (r: Option<nat>)
    ensures r.Some? ==> r.value < |converters| && CanConvert(converters[r.value], kind)
    ensures r.Some? ==> forall j :: 0 <= j < r.value ==> !CanConvert(converters[j], kind)
    ensures r.None? <==> forall j :: 0 <= j < |converters| ==> !CanConvert(converters[j], kind)
  {
    if converters == [] then None
    else if CanConvert(converters[0], kind) then Some(0)
    else
      match ConverterFor(converters[1..], kind)
      case None => None
      case Some(k) => Some(k + 1)
  }

  /**
   * The reader's InvalidOperationException (GetString on a token that is not a string) carries
   * System.Text.Json's rethrow marker, so the serializer reports it as a JsonException; other
   * exceptions of a converter leave the serializer unchanged.
   */
  function Rethrown(e: Error): Error
  {
    if e == InvalidOperation then JsonError else e
  }

  /** Reading a non-null-handling slot with the converter the options choose, or the engine. */
  function ReadConverted(options: Options, engine: Engine, kind: Kind, token: Json): Result<Value>
  {
    match ConverterFor(options.converters, kind)
    case Some(i) =>
      (match options.converters[i]
       case BooleanConverter =>
         (match Converters.ReadBoolean(token)
          case Success(b) => Success(Bool(b))
          case Failure(e) => Failure(Rethrown(e)))
       case NullableEnumConverter =>
         (match Converters.ReadNullableEnum(kind.members, token)
          case Success(e) => Success(if e.Some? then Enum(e.value) else Null)
          case Failure(e) => Failure(Rethrown(e)))
       case StringEnumConverter => engine(kind, token))
    case None => engine(kind, token)
  }

  /**
   * JsonSerializer.Deserialize for one slot. For bool? the serializer's own nullable wrapper
   * stores null for a null token and otherwise defers to the converter for bool; a type no
   * registered converter handles is the engine's.
   */
  function ReadSlot(options: Options, engine: Engine, kind: Kind, token: Json): (r: Result<Value>)
    ensures kind == BoolKind(true) && token.JNull? ==> r == Success(Null)
    ensures kind == BoolKind(true) && !token.JNull? ==> r == ReadSlot(options, engine, BoolKind(false), token)
    ensures kind != BoolKind(true) && ConverterFor(options.converters, kind).None? ==> r == engine(kind, token)
    ensures r.Failure? && r.error == InvalidOperation ==> r == engine(kind, token) || r == engine(BoolKind(false), token)
    decreases if kind == BoolKind(true) then 1 else 0
  {
    if kind == BoolKind(true) then
      if token.JNull? then Success(Null) else ReadConverted(options, engine, BoolKind(false), token)
    else ReadConverted(options, engine, kind, token)
  }

  /** Both profiles read every slot alike: they differ only in what is written. */
  lemma ProfilesReadAlike(writeNulls: bool, engine: Engine, kind: Kind, token: Json)
    ensures ReadSlot(CreateOptions(writeNulls), engine, kind, token) == ReadSlot(DefaultOptions, engine, kind, token)
  {
  }

  /** Under the default profile the custom converters read bool, bool? and T?; plain enums go to the engine. */
  lemma DefaultProfileConverters(engine: Engine, kind: Kind, token: Json)
    ensures kind == BoolKind(false) ==>
      ReadSlot(DefaultOptions, engine, kind, token) ==
        (match Converters.ReadBoolean(token)
         case Success(b) => Success(Bool(b))
         case Failure(InvalidOperation) => Failure(JsonError)
         case Failure(e) => Failure(e))
    ensures kind == BoolKind(true) && !token.JNull? ==>
      ReadSlot(DefaultOptions, engine, kind, token) == ReadSlot(DefaultOptions, engine, BoolKind(false), token)
    ensures kind.EnumKind? && kind.nullable ==>
      ReadSlot(DefaultOptions, engine, kind, token) ==
        (match Converters.ReadNullableEnum(kind.members, token)
         case Success(Some(i)) => Success(Enum(i))
         case Success(None) => Success(Null)
         case Failure(_) => Failure(JsonError))
    ensures kind.EnumKind? && !kind.nullable ==> ReadSlot(DefaultOptions, engine, kind, token) == engine(kind, token)
    ensures kind.OtherKind? ==> ReadSlot(DefaultOptions, engine, kind, token) == engine(kind, token)
  {
    if kind.EnumKind? && kind.nullable {
      assert !CanConvert(BooleanConverter, kind);
      assert ConverterFor(DefaultOptions.converters, kind) == Some(1);
    }
  }

  /**
   * The custom converters surface only JsonException and bool.Parse's FormatException through the
   * serializer: a token of the wrong shape is a JsonException, never an InvalidOperationException.
   */
  lemma ConverterErrorsAreJsonErrors(engine: Engine, kind: Kind, token: Json)
    ensures (kind.BoolKind? || (kind.EnumKind? && kind.nullable)) && ReadSlot(DefaultOptions, engine, kind, token).Failure? ==>
      ReadSlot(DefaultOptions, engine, kind, token).error in {JsonError, FormatError}
    ensures kind.BoolKind? && (token.JArray? || token.JObject?) ==>
      ReadSlot(DefaultOptions, engine, kind, token) == Failure(JsonError)
    ensures kind.EnumKind? && kind.nullable && !token.JNull? && !token.JString? ==>
      ReadSlot(DefaultOptions, engine, kind, token) == Failure(JsonError)
  {
    DefaultProfileConverters(engine, kind, token);
    if kind.BoolKind? {
      DefaultProfileConverters(engine, BoolKind(false), token);
    }
  }

  /**
   * Json.Deserialize(string, Type), the decoder DeserializeInto applies to each member: the
   * slot is read under the default profile and a null result raises JsonException.
   */
  function DeserializeDynamic(engine: Engine, kind: Kind, token: Json): (r: Result<Value>)
    ensures r.Success? ==> r.value != Null && ReadSlot(DefaultOptions, engine, kind, token) == r
    ensures ReadSlot(DefaultOptions, engine, kind, token) == Success(Null) ==> r == Failure(JsonError)
    ensures ReadSlot(DefaultOptions, engine, kind, token).Failure? ==> r == ReadSlot(DefaultOptions, engine, kind, token)
  {
    var v :- ReadSlot(DefaultOptions, engine, kind, token);
    if v == Null then Failure(JsonError) else Success(v)
  }

  /**
   * The field decoder DeserializeInto evidently intends: the slot is read under the default
   * profile and a null result is stored, as it is when the member is read inside a whole object.
   */
  function DeserializeFieldLenient(engine: Engine, kind: Kind, token: Json): (r: Result<Value>)
    ensures r == ReadSlot(DefaultOptions, engine, kind, token)
    ensures DeserializeDynamic(engine, kind, token).Success? ==> r == DeserializeDynamic(engine, kind, token)
  {
    ReadSlot(DefaultOptions, engine, kind, token)
  }

  /**
   * As written, decoding a T? member fails on exactly the strings that name no member in any
   * case, although the enum converter maps those to null without an error.
   */
  lemma DynamicEnumRejectsUnknownNames(engine: Engine, members: seq<string>, s: string)
    ensures Converters.ReadNullableEnum(members, JString(s)) == Success(None) <==>
      forall j :: 0 <= j < |members| ==> !Text.EqualsIgnoreCase(members[j], Converters.EnumText(s))
    ensures DeserializeDynamic(engine, EnumKind(members, true), JString(s)).Failure? <==>
      forall j :: 0 <= j < |members| ==> !Text.EqualsIgnoreCase(members[j], Converters.EnumText(s))
  {
    DefaultProfileConverters(engine, EnumKind(members, true), JString(s));
  }

  /** The corrected decoder never fails on a string for a T? member. */
  lemma LenientEnumAcceptsEveryName(engine: Engine, members: seq<string>, s: string)
    ensures DeserializeFieldLenient(engine, EnumKind(members, true), JString(s)).Success?
    ensures DeserializeFieldLenient(engine, EnumKind(members, true), JString(s)) == Success(Null) <==>
      forall j :: 0 <= j < |members| ==> !Text.EqualsIgnoreCase(members[j], Converters.EnumText(s))
  {
    DefaultProfileConverters(engine, EnumKind(members, true), JString(s));
  }

  /** What the general engine knows of a type T: its name, how it writes and how it parses a T. */
  datatype TypeInfo<!T> = TypeInfo(
    name: string,
    serialize: (T, Options) -> string,
    parse: (string, Options) -> Result<Option<T>>)

  /** Json.Deserialize<T>(json, options): the engine's result, where null raises JsonException. */
  function Deserialize<T>(info: TypeInfo<T>, json: string, options: Options): (r: Result<T>)
    ensures r.Success? <==> info.parse(json, options).Success? && info.parse(json, options).value.Some?
    ensures r.Success? ==> info.parse(json, options) == Success(Some(r.value))
    ensures info.parse(json, options) == Success(None) ==> r == Failure(JsonError)
    ensures info.parse(json, options).Failure? ==> r == Failure(info.parse(json, options).error)
  {
    match info.parse(json, options)
    case Failure(e) => Failure(e)
    case Success(None) => Failure(JsonError)
    case Success(Some(v)) => Success(v)
  }

  /** Json.Serialize<T>: the engine's text under the default profile. */
  function Serialize<T>(info: TypeInfo<T>, value: T): (r: string)
    ensures r == info.serialize(value, Options(true, [BooleanConverter, NullableEnumConverter, StringEnumConverter], true, WhenWritingNull))
  {
    info.serialize(value, DefaultOptions)
  }

  /** Json.SerializeWithNulls<T>: the engine's text under the null-writing profile. */
  function SerializeWithNulls<T>(info: TypeInfo<T>, value: T): (r: string)
    ensures r == info.serialize(value, DefaultOptions.(defaultIgnoreCondition := Never))
  {
    info.serialize(value, CreateOptions(true))
  }

  /** Whenever the engine reads back what it writes under the default profile, so do the entry points. */
  lemma SerializeDeserializeRoundTrip<T>(info: TypeInfo<T>, value: T)
    requires info.parse(info.serialize(value, DefaultOptions), DefaultOptions) == Success(Some(value))
    ensures Deserialize(info, Serialize(info, value), DefaultOptions) == Success(value)
  {
  }
}
