/** Character classes, ASCII case mapping and trimming, as the .NET string functions used by the core apply them. */
module Text {

  predicate IsUpper(c: char) { 'A' <= c <= 'Z' }

  predicate IsLower(c: char) { 'a' <= c <= 'z' }

  /** char.ToLowerInvariant restricted to ASCII. */
  function ToLowerChar(c: char): char
  {
    if IsUpper(c) then (c as int + 32) as char else c
  }

  /** string.ToLower restricted to ASCII. */
  function Lower(s: string): string
  {
    seq(|s|, i requires 0 <= i < |s| => ToLowerChar(s[i]))
  }

  /** Ordinal case-insensitive equality (StringComparison.OrdinalIgnoreCase), ASCII. */
  predicate EqualsIgnoreCase(a: string, b: string)
  {
    Lower(a) == Lower(b)
  }

  /** char.IsWhiteSpace: the Unicode space separators plus the control white space. */
  predicate IsWhiteSpace(c: char)
  {
    var n := c as int;
    (9 <= n <= 13) || n == 32 || n == 0x85 || n == 0xA0 || n == 0x1680
    || (0x2000 <= n <= 0x200A) || n == 0x2028 || n == 0x2029 || n == 0x202F
    || n == 0x205F || n == 0x3000
  }

  /** The characters bool.Parse strips from both ends: white space and U+0000. */
  predicate IsWhiteSpaceOrNull(c: char)
  {
    IsWhiteSpace(c) || c == '\0'
  }

  /** Drops the leading characters satisfying `drop`. */
  function TrimStart(s: string, drop: char -> bool): string
    decreases |s|
  {
    if s != [] && drop(s[0]) then TrimStart(s[1..], drop) else s
  }

  /** Drops the trailing characters satisfying `drop`. */
  function TrimEnd(s: string, drop: char -> bool): string
    decreases |s|
  {
    if s != [] && drop(s[|s| - 1]) then TrimEnd(s[..|s| - 1], drop) else s
  }

  function Trim(s: string, drop: char -> bool): string
  {
    TrimEnd(TrimStart(s, drop), drop)
  }

  lemma LowerIdempotent(s: string)
    ensures Lower(Lower(s)) == Lower(s)
  {
    assert forall i :: 0 <= i < |s| ==> ToLowerChar(ToLowerChar(s[i])) == ToLowerChar(s[i]);
  }

  /** Lower-casing changes no character that trimming looks at, so the two commute. */
  lemma {:induction false} TrimStartLower(s: string, drop: char -> bool)
    requires forall c :: drop(ToLowerChar(c)) == drop(c)
    ensures TrimStart(Lower(s), drop) == Lower(TrimStart(s, drop))
    decreases |s|
  {
    if s != [] && drop(s[0]) {
      assert Lower(s)[1..] == Lower(s[1..]);
      TrimStartLower(s[1..], drop);
    }
  }

  lemma {:induction false} TrimEndLower(s: string, drop: char -> bool)
    requires forall c :: drop(ToLowerChar(c)) == drop(c)
    ensures TrimEnd(Lower(s), drop) == Lower(TrimEnd(s, drop))
    decreases |s|
  {
    if s != [] && drop(s[|s| - 1]) {
      assert Lower(s)[..|s| - 1] == Lower(s[..|s| - 1]);
      TrimEndLower(s[..|s| - 1], drop);
    }
  }

  lemma TrimLower(s: string, drop: char -> bool)
    requires forall c :: drop(ToLowerChar(c)) == drop(c)
    ensures Trim(Lower(s), drop) == Lower(Trim(s, drop))
  {
    TrimStartLower(s, drop);
    TrimEndLower(TrimStart(s, drop), drop);
  }

  /** A string whose first and last characters are not dropped is its own trim. */
  lemma TrimIdentity(s: string, drop: char -> bool)
    requires s == [] || (!drop(s[0]) && !drop(s[|s| - 1]))
    ensures Trim(s, drop) == s
  {
  }
}
