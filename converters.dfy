/**
 * The two custom converters of the serializer options: BooleanConverter, which reads a bool
 * from a literal, a number or a string, and EnumConverter<T>, which reads a nullable enum by
 * member name, exact case first, then ignoring case, and falls back to null.
 */
module Converters {
  import opened Results
  import opened Text
  import opened JsonValue

  // ---------------------------------------------------------------- booleans

  /** bool.Parse: "True"/"False" ignoring case, retried after trimming white space and U+0000. */
  function ParseBool(s: string): Result<bool>
  {
    if EqualsIgnoreCase(s, "True") then Success(true)
    else if EqualsIgnoreCase(s, "False") then Success(false)
    else
      var t := Trim(s, IsWhiteSpaceOrNull);
      if EqualsIgnoreCase(t, "True") then Success(true)
      else if EqualsIgnoreCase(t, "False") then Success(false)
      else Failure(FormatError)
  }

  /**
   * BooleanConverter.Read. A string is lower-cased, then handed to bool.Parse; a null token
   * has no string (JsonException); an array or object start has none either
   * (Utf8JsonReader.GetString raises InvalidOperationException).
   */
  function ReadBoolean(token: Json): (r: Result<bool>)
    ensures token.JBool? ==> r == Success(token.b)
    ensures r == Failure(JsonError) <==> token.JNull?
    ensures r == Failure(InvalidOperation) <==> token.JArray? || token.JObject?
    ensures r.Failure? ==> r.error in {FormatError, JsonError, InvalidOperation}
    ensures r == Failure(FormatError) ==> token.JString?
  {
    match token
    case JBool(b) => Success(b)
    case JNumber(n) => Success(n != 0.0)
    case JString(s) => ParseBool(Lower(s))
    case JNull => Failure(JsonError)
    case _ => Failure(InvalidOperation)
  }

  /** BooleanConverter.Write: the literal of the value, which ReadBoolean maps back to it. */
  function WriteBoolean(value: bool): (r: Json)
    ensures r.JBool?
    ensures ReadBoolean(r) == Success(value)
  {
    JBool(value)
  }

  /** The text a string token stands for once trimmed and lower-cased. */
  function BoolText(s: string): string
  {
    Lower(Trim(s, IsWhiteSpaceOrNull))
  }

  lemma LowerKeepsWhiteSpace()
    ensures forall c :: IsWhiteSpaceOrNull(ToLowerChar(c)) == IsWhiteSpaceOrNull(c)
  {
  }

  /** For an already lower-cased text, bool.Parse's case-insensitive test is plain equality. */
  lemma IgnoreCaseOfLowered(x: string)
    requires Lower(x) == x
    ensures EqualsIgnoreCase(x, "True") <==> x == "true"
    ensures EqualsIgnoreCase(x, "False") <==> x == "false"
  {
    assert Lower("True") == "true";
    assert Lower("False") == "false";
  }

  lemma TrimOfLiteral(x: string)
    requires x == "true" || x == "false"
    ensures Trim(x, IsWhiteSpaceOrNull) == x
  {
    TrimIdentity(x, IsWhiteSpaceOrNull);
  }

  lemma ParseBoolOfLowered(s: string)
    ensures ParseBool(Lower(s)) ==
      if BoolText(s) == "true" then Success(true)
      else if BoolText(s) == "false" then Success(false)
      else Failure(FormatError)
  {
    var l := Lower(s);
    var t := Trim(l, IsWhiteSpaceOrNull);
    LowerKeepsWhiteSpace();
    TrimLower(s, IsWhiteSpaceOrNull);
    assert t == BoolText(s);
    LowerIdempotent(s);
    LowerIdempotent(Trim(s, IsWhiteSpaceOrNull));
    IgnoreCaseOfLowered(l);
    IgnoreCaseOfLowered(t);
    if l == "true" || l == "false" {
      TrimOfLiteral(l);
    }
  }

  /** The whole input table of BooleanConverter.Read. */
  lemma ReadBooleanTable(token: Json)
    ensures ReadBoolean(token) == Success(true) <==>
      token == JBool(true) || (token.JNumber? && token.n != 0.0)
      || (token.JString? && BoolText(token.s) == "true")
    ensures ReadBoolean(token) == Success(false) <==>
      token == JBool(false) || token == JNumber(0.0)
      || (token.JString? && BoolText(token.s) == "false")
    ensures ReadBoolean(token) == Failure(FormatError) <==>
      token.JString? && BoolText(token.s) != "true" && BoolText(token.s) != "false"
    ensures ReadBoolean(token) == Failure(JsonError) <==> token.JNull?
    ensures ReadBoolean(token) == Failure(InvalidOperation) <==> token.JArray? || token.JObject?
  {
    if token.JString? {
      ParseBoolOfLowered(token.s);
    }
  }

  /** The cases of DNXtensionsTests/JsonTests.cs lines 11-20, and a string bool.Parse refuses. */
  lemma BooleanTestCases()
    ensures ReadBoolean(JBool(true)) == Success(true)
    ensures ReadBoolean(JString("true")) == Success(true)
    ensures ReadBoolean(JNumber(1.0)) == Success(true)
    ensures ReadBoolean(JString("True")) == Success(true)
    ensures ReadBoolean(JString("TRUE")) == Success(true)
    ensures ReadBoolean(JBool(false)) == Success(false)
    ensures ReadBoolean(JString("false")) == Success(false)
    ensures ReadBoolean(JNumber(0.0)) == Success(false)
    ensures ReadBoolean(JString("False")) == Success(false)
    ensures ReadBoolean(JString("FALSE")) == Success(false)
    ensures ReadBoolean(JString("yes")) == Failure(FormatError)
  {
    assert Lower("True") == Lower("TRUE") == "true";
    assert Lower("False") == Lower("FALSE") == "false";
  }

  // ---------------------------------------------------------------- enums

  predicate IsIdentifierChar(c: char)
  {
    IsUpper(c) || IsLower(c) || '0' <= c <= '9' || c == '_'
  }

  /** A C# enum member name (ASCII): no digit first, letters, digits and underscores only. */
  predicate IsMemberName(s: string)
  {
    s != [] && !('0' <= s[0] <= '9') && forall i :: 0 <= i < |s| ==> IsIdentifierChar(s[i])
  }

  /** An enum type, as its member names in ascending order of value; C# keeps the names distinct. */
  predicate ValidEnum(members: seq<string>)
  {
    && (forall i :: 0 <= i < |members| ==> IsMemberName(members[i]))
    && (forall i, j :: 0 <= i < j < |members| ==> members[i] != members[j])
  }

  /** Names that still differ once case is ignored. */
  predicate DistinctIgnoringCase(members: seq<string>)
  {
    forall i, j :: 0 <= i < j < |members| ==> Lower(members[i]) != Lower(members[j])
  }

  /** The member Enum.TryParse finds by exact (ordinal) name. */
  function IndexOf(members: seq<string>, name: string): (r: Option<nat>)
    ensures r.Some? ==> r.value < |members| && members[r.value] == name
    ensures r.Some? ==> forall j :: 0 <= j < r.value ==> members[j] != name
    ensures r.None? <==> name !in members
  {
    if members == [] then None
    else if members[0] == name then Some(0)
    else
      match IndexOf(members[1..], name)
      case None => None
      case Some(k) => Some(k + 1)
  }

  /** The member Enum.TryParse finds with ignoreCase: the first, in order of value, equal ignoring case. */
  function IndexOfIgnoreCase(members: seq<string>, name: string): (r: Option<nat>)
    ensures r.Some? ==> r.value < |members| && EqualsIgnoreCase(members[r.value], name)
    ensures r.Some? ==> forall j :: 0 <= j < r.value ==> !EqualsIgnoreCase(members[j], name)
    ensures r.None? ==> forall j :: 0 <= j < |members| ==> !EqualsIgnoreCase(members[j], name)
  {
    if members == [] then None
    else if EqualsIgnoreCase(members[0], name) then Some(0)
    else
      match IndexOfIgnoreCase(members[1..], name)
      case None => None
      case Some(k) => Some(k + 1)
  }

  /** The text Enum.TryParse matches: the string without surrounding white space. */
  function EnumText(s: string): string
  {
    Trim(s, IsWhiteSpace)
  }

  /**
   * Reading a slot of type T? for an enum T. A null token never reaches the converter: the
   * serializer stores null. EnumConverter<T>.Read takes the token's string (GetString raises
   * InvalidOperationException on any other token), tries the exact name, then the name ignoring
   * case, and otherwise logs a diagnostic and returns null.
   */
  function ReadNullableEnum(members: seq<string>, token: Json): (r: Result<Option<nat>>)
    ensures r.Success? <==> token.JNull? || token.JString?
    ensures r.Failure? ==> r.error == InvalidOperation
    ensures token.JNull? ==> r == Success(None)
    ensures r.Success? && r.value.Some? ==> r.value.value < |members|
    ensures token.JString? ==>
      var t := EnumText(token.s);
      && (t in members ==> r.value.Some? && members[r.value.value] == t)
      && (t !in members && r.value.Some? ==>
            EqualsIgnoreCase(members[r.value.value], t)
            && forall j :: 0 <= j < r.value.value ==> !EqualsIgnoreCase(members[j], t))
      && (r.value.None? <==> forall j :: 0 <= j < |members| ==> !EqualsIgnoreCase(members[j], t))
  {
    match token
    case JNull => Success(None)
    case JString(s) =>
      var t := EnumText(s);
      var exact := IndexOf(members, t);
      if exact.Some? then Success(exact)
      else Success(IndexOfIgnoreCase(members, t))
    case _ => Failure(InvalidOperation)
  }

  /**
   * The number of leading characters JsonNamingPolicy.CamelCase lower-cases, given that the
   * characters before index i already were: a run of capitals is lowered except its last one
   * when a lower-case letter follows, which it is when a space follows.
   */
  function CamelPrefix(name: string, i: nat): (k: nat)
    requires 1 <= i <= |name|
    ensures i <= k <= |name|
    decreases |name| - i
  {
    if i == |name| then i
    else if i == 1 && !IsUpper(name[1]) then 1
    else if i + 1 < |name| && !IsUpper(name[i + 1]) then (if name[i + 1] == ' ' then i + 1 else i)
    else CamelPrefix(name, i + 1)
  }

  /** JsonNamingPolicy.CamelCase.ConvertName: ReadOnly becomes readOnly, IOError becomes ioError. */
  function CamelCase(name: string): (r: string)
    ensures |r| == |name|
    ensures forall k :: 0 <= k < |name| ==> r[k] == name[k] || r[k] == ToLowerChar(name[k])
    ensures name != [] ==> r[0] == ToLowerChar(name[0])
    ensures 2 <= |name| && !IsUpper(name[1]) ==> r[1..] == name[1..]
  {
    if name == [] || !IsUpper(name[0]) then name
    else
      var k := CamelPrefix(name, 1);
      Lower(name[..k]) + name[k..]
  }

  /** Camel-casing changes case only, so a case-insensitive match finds the member again. */
  lemma CamelCaseIgnoringCase(name: string)
    ensures EqualsIgnoreCase(CamelCase(name), name)
  {
    var r := CamelCase(name);
    assert forall k :: 0 <= k < |name| ==> ToLowerChar(r[k]) == ToLowerChar(name[k]);
  }

  /**
   * Writing a slot of type T? for an enum T. The serializer writes null for an empty slot;
   * EnumConverter<T>.Write writes the member name camel-cased.
   */
  function WriteNullableEnum(members: seq<string>, value: Option<nat>): (r: Json)
    requires value.Some? ==> value.value < |members|
    ensures value.None? <==> r == JNull
    ensures value.Some? ==> r == JString(CamelCase(members[value.value]))
    ensures value.Some? ==> r.JString? && EqualsIgnoreCase(r.s, members[value.value])
  {
    match value
    case None => JNull
    case Some(i) =>
      CamelCaseIgnoringCase(members[i]);
      JString(CamelCase(members[i]))
  }

  /** A camel-cased member name is still an identifier, so trimming leaves it alone. */
  lemma CamelCaseIsUntrimmed(name: string)
    requires IsMemberName(name)
    ensures EnumText(CamelCase(name)) == CamelCase(name)
  {
    var r := CamelCase(name);
    assert forall k :: 0 <= k < |r| ==> IsIdentifierChar(r[k]);
    TrimIdentity(r, IsWhiteSpace);
  }

  /** What EnumConverter<T> writes it reads back, when no two names differ only in case. */
  lemma EnumRoundTrip(members: seq<string>, value: Option<nat>)
    requires ValidEnum(members) && DistinctIgnoringCase(members)
    requires value.Some? ==> value.value < |members|
    ensures ReadNullableEnum(members, WriteNullableEnum(members, value)) == Success(value)
  {
    if value.Some? {
      var i := value.value;
      var t := CamelCase(members[i]);
      CamelCaseIsUntrimmed(members[i]);
      CamelCaseIgnoringCase(members[i]);
      var r := ReadNullableEnum(members, JString(t));
      assert EqualsIgnoreCase(members[i], t);
      var j := r.value.value;
      assert EqualsIgnoreCase(members[j], t);
    }
  }

  /** System.IO.FileAttributes, the enum the tests use, in ascending order of value. */
  const FileAttributes: seq<string> := [
    "ReadOnly", "Hidden", "System", "Directory", "Archive", "Device", "Normal", "Temporary",
    "SparseFile", "ReparsePoint", "Compressed", "Offline", "NotContentIndexed", "Encrypted",
    "IntegrityStream", "NoScrubData"]

  lemma FirstLetterDiffers(a: string, b: string)
    requires a != [] && b != []
    requires |a| != |b| || ToLowerChar(a[0]) != ToLowerChar(b[0])
    ensures !EqualsIgnoreCase(a, b)
  {
    if |a| == |b| {
      assert Lower(a)[0] != Lower(b)[0];
    }
  }

  /** The case of DNXtensionsTests/JsonTests.cs line 43: the exact name ReadOnly is index 0. */
  lemma EnumReadReadOnly()
    ensures ReadNullableEnum(FileAttributes, JString("ReadOnly")) == Success(Some(0))
  {
    TrimIdentity("ReadOnly", IsWhiteSpace);
    assert FileAttributes[0] == "ReadOnly";
  }

  /** Every FileAttributes name starts with a capital, so the camel-cased readOnly is no exact name. */
  lemma ReadOnlyIsNoExactName()
    ensures "readOnly" !in FileAttributes
  {
    forall j | 0 <= j < |FileAttributes| ensures FileAttributes[j] != "readOnly" {
      assert FileAttributes[j][0] != 'r';
    }
  }

  /** The case of DNXtensionsTests/JsonTests.cs line 42: the camel-cased readOnly finds ReadOnly ignoring case. */
  lemma EnumReadCamelReadOnly()
    ensures ReadNullableEnum(FileAttributes, JString("readOnly")) == Success(Some(0))
  {
    TrimIdentity("readOnly", IsWhiteSpace);
    ReadOnlyIsNoExactName();
    assert EqualsIgnoreCase(FileAttributes[0], "readOnly") by {
      assert Lower("readOnly") == Lower("ReadOnly");
    }
  }

  /** No FileAttributes name is spelled NORMAL exactly: the names of that length differ in their second letter. */
  lemma NormalIsNoExactName()
    ensures "NORMAL" !in FileAttributes
  {
    forall j | 0 <= j < |FileAttributes| ensures FileAttributes[j] != "NORMAL" {
      if |FileAttributes[j]| == 6 {
        assert FileAttributes[j][1] != 'O';
      }
    }
  }

  /** The names before Normal differ from NORMAL in length or in first letter. */
  lemma NormalMatchesNoEarlierName()
    ensures forall j :: 0 <= j < 6 ==> !EqualsIgnoreCase(FileAttributes[j], "NORMAL")
  {
    forall j | 0 <= j < 6 ensures !EqualsIgnoreCase(FileAttributes[j], "NORMAL") {
      FirstLetterDiffers(FileAttributes[j], "NORMAL");
    }
  }

  /** The case of DNXtensionsTests/JsonTests.cs line 44: NORMAL finds Normal (index 6) ignoring case. */
  lemma EnumReadNormal()
    ensures ReadNullableEnum(FileAttributes, JString("NORMAL")) == Success(Some(6))
  {
    TrimIdentity("NORMAL", IsWhiteSpace);
    NormalIsNoExactName();
    NormalMatchesNoEarlierName();
    assert EqualsIgnoreCase(FileAttributes[6], "NORMAL") by {
      assert Lower("NORMAL") == Lower("Normal");
    }
  }

  /** The cases of DNXtensionsTests/JsonTests.cs lines 45-46: null and an unknown name give null. */
  lemma EnumReadNull()
    ensures ReadNullableEnum(FileAttributes, JNull) == Success(None)
    ensures ReadNullableEnum(FileAttributes, JString("unknown")) == Success(None)
  {
    TrimIdentity("unknown", IsWhiteSpace);
    forall j | 0 <= j < |FileAttributes| ensures !EqualsIgnoreCase(FileAttributes[j], "unknown") {
      FirstLetterDiffers(FileAttributes[j], "unknown");
    }
  }

  /** The cases of DNXtensionsTests/JsonTests.cs lines 63-64, 70-71 and 77-78. */
  lemma EnumWriteTestCases()
    ensures WriteNullableEnum(FileAttributes, Some(0)) == JString("readOnly")
    ensures WriteNullableEnum(FileAttributes, Some(6)) == JString("normal")
    ensures WriteNullableEnum(FileAttributes, None) == JNull
  {
    assert CamelCase("ReadOnly") == "readOnly";
    assert CamelCase("Normal") == "normal";
  }
}
