/**
 * Whitespace trimming as done by Rust's `str::trim`: leading and trailing
 * characters with the Unicode White_Space property are removed.
 */
module Text {

  /** `char::is_whitespace`: the code points carrying the Unicode White_Space property. */
  predicate IsWhitespace(c: char) {
    var n := c as int;
    || (0x09 <= n <= 0x0D)
    || n == 0x20
    || n == 0x85
    || n == 0xA0
    || n == 0x1680
    || (0x2000 <= n <= 0x200A)
    || n == 0x2028
    || n == 0x2029
    || n == 0x202F
    || n == 0x205F
    || n == 0x3000
  }

  /** Every character of `s` is whitespace (vacuously true of the empty string). */
  predicate AllWhitespace(s: string) {
    forall i :: 0 <= i < |s| ==> IsWhitespace(s[i])
  }

  /** `str::trim_start`: drops the whitespace prefix and keeps the rest untouched. */
  function TrimStart(s: string): (r: string)
    ensures |r| <= |s| && r == s[|s| - |r|..]
    ensures forall i :: 0 <= i < |s| - |r| ==> IsWhitespace(s[i])
    ensures r == [] || !IsWhitespace(r[0])
    decreases |s|
  {
    if |s| > 0 && IsWhitespace(s[0]) then TrimStart(s[1..]) else s
  }

  /** `str::trim_end`: drops the whitespace suffix and keeps the rest untouched. */
  function TrimEnd(s: string): (r: string)
    ensures |r| <= |s| && r == s[..|r|]
    ensures forall i :: |r| <= i < |s| ==> IsWhitespace(s[i])
    ensures r == [] || !IsWhitespace(r[|r| - 1])
    decreases |s|
  {
    if |s| > 0 && IsWhitespace(s[|s| - 1]) then TrimEnd(s[..|s| - 1]) else s
  }

  /** `str::trim`: the result is empty exactly when the input is all whitespace. */
  function Trim(s: string): (r: string)
    ensures |r| <= |s|
    ensures r == [] <==> AllWhitespace(s)
    ensures r == [] || (!IsWhitespace(r[0]) && !IsWhitespace(r[|r| - 1]))
  {
    TrimEnd(TrimStart(s))
  }

  /** `name.trim().is_empty()`. */
  predicate IsBlank(s: string) {
    Trim(s) == []
  }
}
