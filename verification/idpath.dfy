/**
 * Extraction of the `{id}` path parameter for PUT and DELETE:
 * `path.trim_start_matches("/people/")` followed by `str::parse::<u32>()`.
 */
module IdPath {
  import opened Wrappers
  import opened People

  /** The collection prefix that PUT and DELETE paths must start with. */
  const PREFIX: string := "/people/"

  /** `str::starts_with` for a string pattern. */
  predicate StartsWith(s: string, p: string) {
    |p| <= |s| && s[..|p|] == p
  }

  /** `s` is zero or more copies of the prefix, back to back. */
  ghost predicate PrefixCopies(s: string)
    decreases |s|
  {
    |s| == 0 || (StartsWith(s, PREFIX) && PrefixCopies(s[|PREFIX|..]))
  }

  /**
   * `trim_start_matches("/people/")`: strips the prefix as many times as it
   * repeats at the front, so what is left no longer starts with it.
   */
  function TrimPrefixMatches(path: string): (r: string)
    ensures !StartsWith(r, PREFIX)
    ensures |r| <= |path| && r == path[|path| - |r|..]
    ensures PrefixCopies(path[..|path| - |r|])
    decreases |path|
  {
    if StartsWith(path, PREFIX) then
      var rest := path[|PREFIX|..];
      var r := TrimPrefixMatches(rest);
      var stripped := path[..|path| - |r|];
      assert stripped[..|PREFIX|] == PREFIX;
      assert stripped[|PREFIX|..] == rest[..|rest| - |r|];
      r
    else
      assert path[..0] == [];
      path
  }

  /** An ASCII decimal digit. */
  predicate IsDigit(c: char) {
    '0' <= c <= '9'
  }

  function DigitValue(c: char): (r: nat)
    requires IsDigit(c)
    ensures r < 10
  {
    (c as int) - ('0' as int)
  }

  function DigitChar(d: nat): (c: char)
    requires d < 10
    ensures IsDigit(c) && DigitValue(c) == d
  {
    (('0' as int) + d) as char
  }

  predicate AllDigits(s: string) {
    forall i :: 0 <= i < |s| ==> IsDigit(s[i])
  }

  /** The value of a string of decimal digits, most significant first. */
  function DigitsValue(s: string): nat
    requires AllDigits(s)
    decreases |s|
  {
    if |s| == 0 then 0 else 10 * DigitsValue(s[..|s| - 1]) + DigitValue(s[|s| - 1])
  }

  /** The digits of a `u32` literal: the text after one optional leading `+`. */
  function Magnitude(s: string): string {
    if |s| > 0 && s[0] == '+' then s[1..] else s
  }

  /**
   * `s.parse::<u32>()`: an optional `+`, then one or more ASCII digits whose
   * value fits in 32 bits. A lone `+`, a `-` sign, any other character and
   * an out-of-range value are all parse errors (`None`).
   */
  function ParseId(s: string): Option<u32> {
    var digits := Magnitude(s);
    if |digits| == 0 || !AllDigits(digits) then None
    else if DigitsValue(digits) <= U32_MAX then Some(DigitsValue(digits))
    else None
  }

  /**
   * The digit-at-a-time conversion of `u32::from_str_radix`: reject a
   * non-digit, then multiply and add with overflow checks. It agrees with
   * `ParseId` on every input.
   */
  method ParseIdChecked(s: string) returns (r: Option<u32>)
    ensures r == ParseId(s)
  {
    var digits := Magnitude(s);
    if |digits| == 0 {
      return None;
    }
    var acc: u32 := 0;
    var i := 0;
    while i < |digits|
      invariant 0 <= i <= |digits|
      invariant AllDigits(digits[..i])
      invariant acc == DigitsValue(digits[..i])
    {
      var c := digits[i];
      if !IsDigit(c) {
        return None;
      }
      assert digits[..i + 1][..i] == digits[..i];
      var scaled := acc * 10;
      if scaled > U32_MAX {
        OverflowIsFinal(digits, i + 1);
        return None;
      }
      var sum := scaled + DigitValue(c);
      if sum > U32_MAX {
        OverflowIsFinal(digits, i + 1);
        return None;
      }
      acc := sum;
      i := i + 1;
    }
    assert digits[..i] == digits;
    return Some(acc);
  }

  /** A prefix's value never exceeds the value of the whole digit string. */
  lemma {:induction false} PrefixValueBounded(s: string, k: nat)
    requires AllDigits(s) && k <= |s|
    ensures DigitsValue(s[..k]) <= DigitsValue(s)
    decreases |s|
  {
    if k < |s| {
      var init := s[..|s| - 1];
      assert init[..k] == s[..k];
      PrefixValueBounded(init, k);
    } else {
      assert s[..k] == s;
    }
  }

  /** Once the digits read so far exceed `u32::MAX`, the whole string fails to parse. */
  lemma OverflowIsFinal(digits: string, k: nat)
    requires k <= |digits| && |digits| > 0
    requires AllDigits(digits[..k]) && DigitsValue(digits[..k]) > U32_MAX
    ensures !AllDigits(digits) || DigitsValue(digits) > U32_MAX
  {
    if AllDigits(digits) {
      PrefixValueBounded(digits, k);
    }
  }

  /** The canonical decimal rendering of `n`, as `u32::to_string` prints it. */
  function Decimal(n: nat): (r: string)
    ensures |r| > 0 && AllDigits(r)
    ensures DigitsValue(r) == n
    ensures n > 0 ==> r[0] != '0'
    decreases n
  {
    if n < 10 then [DigitChar(n)]
    else
      var r := Decimal(n / 10) + [DigitChar(n % 10)];
      assert r[..|r| - 1] == Decimal(n / 10);
      r
  }

  /** `k` zero digits. */
  function Zeros(k: nat): (r: string)
    ensures |r| == k && AllDigits(r)
    ensures forall i :: 0 <= i < k ==> r[i] == '0'
  {
    seq(k, _ => '0')
  }

  /** Leading zeros do not change a digit string's value. */
  lemma {:induction false} LeadingZerosIgnored(k: nat, t: string)
    requires AllDigits(t)
    ensures AllDigits(Zeros(k) + t)
    ensures DigitsValue(Zeros(k) + t) == DigitsValue(t)
    decreases |t|
  {
    var s := Zeros(k) + t;
    assert AllDigits(s);
    if |t| == 0 {
      assert s == Zeros(k);
      AllZerosValue(k);
    } else {
      var init := t[..|t| - 1];
      assert s[..|s| - 1] == Zeros(k) + init;
      LeadingZerosIgnored(k, init);
    }
  }

  /** A run of zeros is worth zero. */
  lemma {:induction false} AllZerosValue(k: nat)
    ensures DigitsValue(Zeros(k)) == 0
  {
    if k > 0 {
      assert Zeros(k)[..k - 1] == Zeros(k - 1);
      AllZerosValue(k - 1);
    }
  }

  /**
   * Every `u32` written in decimal, with or without a `+` sign and any
   * number of leading zeros, parses back to itself.
   */
  lemma ParseDecimalRoundTrip(n: u32, zeros: nat)
    ensures ParseId(Zeros(zeros) + Decimal(n)) == Some(n)
    ensures ParseId("+" + Zeros(zeros) + Decimal(n)) == Some(n)
  {
    var s := Zeros(zeros) + Decimal(n);
    LeadingZerosIgnored(zeros, Decimal(n));
    assert Magnitude(s) == s;
    assert Magnitude("+" + s) == s;
    assert "+" + Zeros(zeros) + Decimal(n) == "+" + s;
  }

  /** Texts that are not `u32` literals: empty, a lone sign, a negative number, a value past `u32::MAX`. */
  lemma ParseIdRejects()
    ensures ParseId("") == None
    ensures ParseId("+") == None
    ensures ParseId("-1") == None
    ensures ParseId("1a") == None
    ensures ParseId(Decimal(U32_MAX + 1)) == None
  {
    assert !IsDigit('-');
    assert !AllDigits("1a") by { assert !IsDigit("1a"[1]); }
    var big := Decimal(U32_MAX + 1);
    assert Magnitude(big) == big by { assert IsDigit(big[0]); }
  }

  /** The path `/people/<n in decimal>` carries the id n. */
  lemma PathIdRoundTrip(n: u32)
    ensures TrimPrefixMatches(PREFIX + Decimal(n)) == Decimal(n)
    ensures ParseId(TrimPrefixMatches(PREFIX + Decimal(n))) == Some(n)
  {
    var d := Decimal(n);
    assert (PREFIX + d)[..|PREFIX|] == PREFIX;
    assert (PREFIX + d)[|PREFIX|..] == d;
    assert !StartsWith(d, PREFIX) by {
      assert IsDigit(d[0]) && !IsDigit(PREFIX[0]);
    }
    ParseDecimalRoundTrip(n, 0);
    assert Zeros(0) + d == d;
  }
}
