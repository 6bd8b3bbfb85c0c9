/**
 * The two pieces of Python's `str` behaviour that the credential store
 * relies on: `str.strip()` with no argument (which removes every character
 * for which `str.isspace()` holds) and `str(n)` for an `int` (used in the
 * "User limit reached (N)." message).
 */
module PyStr {

  /**
   * Python's `str.isspace()` for a single code point: the characters whose
   * bidirectional class is WS, B or S, or whose general category is Zs.
   */
  predicate IsSpace(c: char)
  {
    var n := c as int;
    (0x09 <= n <= 0x0D) || (0x1C <= n <= 0x20) || n == 0x85 || n == 0xA0
    || n == 0x1680 || (0x2000 <= n <= 0x200A) || n == 0x2028 || n == 0x2029
    || n == 0x202F || n == 0x205F || n == 0x3000
  }

  /** `s` with its leading whitespace removed (`str.lstrip()`). */
  function StripLeading(s: string): (r: string)
    ensures |r| <= |s|
    ensures r != [] ==> !IsSpace(r[0])
  {
    if s != [] && IsSpace(s[0]) then StripLeading(s[1..]) else s
  }

  /** `lstrip()` removes a run of whitespace from the front, and all of it. */
  lemma {:induction false} StripLeadingSpec(s: string)
    ensures var r := StripLeading(s);
      |r| <= |s| && r == s[|s| - |r|..]
      && (forall k :: 0 <= k < |s| - |r| ==> IsSpace(s[k]))
      && (r != [] ==> !IsSpace(r[0]))
  {
    if s != [] && IsSpace(s[0]) {
      StripLeadingSpec(s[1..]);
    }
  }

  /** `s` with its trailing whitespace removed (`str.rstrip()`). */
  function StripTrailing(s: string): (r: string)
    ensures |r| <= |s|
    ensures r != [] ==> !IsSpace(r[|r| - 1])
  {
    if s != [] && IsSpace(s[|s| - 1]) then StripTrailing(s[..|s| - 1]) else s
  }

  /** `rstrip()` removes a run of whitespace from the back, and all of it. */
  lemma {:induction false} StripTrailingSpec(s: string)
    ensures var r := StripTrailing(s);
      |r| <= |s| && r == s[..|r|]
      && (forall k :: |r| <= k < |s| ==> IsSpace(s[k]))
      && (r != [] ==> !IsSpace(r[|r| - 1]))
  {
    if s != [] && IsSpace(s[|s| - 1]) {
      StripTrailingSpec(s[..|s| - 1]);
    }
  }

  /** Python's `s.strip()`. */
  function Strip(s: string): (r: string)
    ensures |r| <= |s|
    ensures r != [] ==> !IsSpace(r[0]) && !IsSpace(r[|r| - 1])
  {
    StripLeadingSpec(s);
    StripTrailingSpec(StripLeading(s));
    StripTrailing(StripLeading(s))
  }

  /** `lstrip()` stops exactly at the first character that is not whitespace. */
  lemma StripLeadingAt(s: string, i: nat)
    requires i <= |s|
    requires forall k :: 0 <= k < i ==> IsSpace(s[k])
    requires i < |s| ==> !IsSpace(s[i])
    ensures StripLeading(s) == s[i..]
  {
    StripLeadingSpec(s);
  }

  /** `rstrip()` stops exactly after the last character that is not whitespace. */
  lemma StripTrailingAt(s: string, j: nat)
    requires j <= |s|
    requires forall k :: j <= k < |s| ==> IsSpace(s[k])
    requires 0 < j ==> !IsSpace(s[j - 1])
    ensures StripTrailing(s) == s[..j]
  {
    StripTrailingSpec(s);
  }

  /**
   * `strip()` is determined by where the whitespace ends: if `s[..i]` and
   * `s[j..]` are all whitespace and `s[i..j]` neither starts nor ends with
   * whitespace, then `strip()` returns exactly `s[i..j]`.
   */
  lemma StripCharacterized(s: string, i: nat, j: nat)
    requires i <= j <= |s|
    requires forall k :: 0 <= k < i ==> IsSpace(s[k])
    requires forall k :: j <= k < |s| ==> IsSpace(s[k])
    requires i < j ==> !IsSpace(s[i]) && !IsSpace(s[j - 1])
    ensures Strip(s) == s[i..j]
  {
    if i < j {
      StripLeadingAt(s, i);
      StripTrailingSuffix(s, i, j);
    } else {
      StripLeadingAt(s, |s|);
    }
  }

  lemma StripTrailingSuffix(s: string, i: nat, j: nat)
    requires i < j <= |s|
    requires forall k :: j <= k < |s| ==> IsSpace(s[k])
    requires !IsSpace(s[j - 1])
    ensures StripTrailing(s[i..]) == s[i..j]
  {
    var l := s[i..];
    forall k | j - i <= k < |l|
      ensures IsSpace(l[k])
    {
      assert l[k] == s[k + i];
    }
    assert l[j - i - 1] == s[j - 1];
    StripTrailingAt(l, j - i);
    assert l[..j - i] == s[i..j];
  }

  /** A string without whitespace at either end is left as it is by `strip()`. */
  lemma StripKeepsTrimmed(s: string)
    requires s != [] ==> !IsSpace(s[0]) && !IsSpace(s[|s| - 1])
    ensures Strip(s) == s
  {
    StripCharacterized(s, 0, |s|);
  }

  /** A string of whitespace only strips to the empty string. */
  lemma StripAllSpace(s: string)
    requires forall k :: 0 <= k < |s| ==> IsSpace(s[k])
    ensures Strip(s) == []
  {
    StripCharacterized(s, 0, 0);
  }

  // ---------- decimal formatting of integers ----------

  predicate IsDigit(c: char) { '0' <= c <= '9' }

  function DigitChar(d: nat): (c: char)
    requires d < 10
  {
    "0123456789"[d]
  }

  /** The value of a string of decimal digits; the reference for `NatToString`. */
  function DigitsValue(s: string): (v: nat)
    requires forall k :: 0 <= k < |s| ==> IsDigit(s[k])
  {
    if s == [] then 0
    else
      var d := s[|s| - 1];
      assert IsDigit(d);
      DigitsValue(s[..|s| - 1]) * 10 + (d as int - '0' as int)
  }

  /** `str(n)` for a non-negative `int`: decimal digits, no leading zero. */
  function NatToString(n: nat): (r: string)
    ensures r != []
    ensures forall k :: 0 <= k < |r| ==> IsDigit(r[k])
    ensures r[0] == '0' ==> n == 0 && r == "0"
  {
    if n < 10 then [DigitChar(n)] else NatToString(n / 10) + [DigitChar(n % 10)]
  }

  /** `str(n)` for any `int`: a minus sign in front of a negative number. */
  function IntToString(n: int): (r: string)
    ensures r != [] && (r[0] == '-' <==> n < 0)
    ensures forall k :: 0 < k < |r| ==> IsDigit(r[k])
  {
    if n < 0 then "-" + NatToString(-n) else NatToString(n)
  }

  /** Reading the digits back gives the number: the decimal form is faithful. */
  lemma {:induction false} NatToStringValue(n: nat)
    ensures DigitsValue(NatToString(n)) == n
  {
    var r := NatToString(n);
    if n >= 10 {
      NatToStringValue(n / 10);
      assert r[..|r| - 1] == NatToString(n / 10);
    }
  }

  /** The sign and digits of `IntToString(n)` determine `n`. */
  lemma IntToStringValue(n: int)
    ensures var r := IntToString(n);
      r != [] && (n < 0 <==> r[0] == '-')
      && (n < 0 ==> DigitsValue(r[1..]) == -n)
      && (n >= 0 ==> DigitsValue(r) == n)
  {
    if n < 0 {
      NatToStringValue(-n);
      assert IntToString(n)[1..] == NatToString(-n);
    } else {
      NatToStringValue(n);
    }
  }
}
