/**
 * Hexadecimal salts: `secrets.token_hex(n)` writes bytes as lower-case hex
 * digit pairs, and `bytes.fromhex` reads them back before hashing. Both are
 * Python library calls; this module gives them the meaning the credential
 * store depends on.
 */
module Hex {
  import opened Wrappers

  type Byte = b: int | 0 <= b < 256

  /** The whitespace `bytes.fromhex` skips between digit pairs (ASCII only). */
  predicate IsAsciiSpace(c: char)
  {
    c == ' ' || c == '\t' || c == '\n' || c == '\r' || c == 0x0B as char || c == 0x0C as char
  }

  predicate IsHexDigit(c: char)
  {
    ('0' <= c <= '9') || ('a' <= c <= 'f') || ('A' <= c <= 'F')
  }

  function HexValue(c: char): (v: nat)
    requires IsHexDigit(c)
    ensures v < 16
  {
    if c <= '9' then c as int - '0' as int
    else if c <= 'F' then c as int - 'A' as int + 10
    else c as int - 'a' as int + 10
  }

  /** The digit `token_hex` writes for a nibble. */
  function HexChar(n: nat): (c: char)
    requires n < 16
  {
    "0123456789abcdef"[n]
  }

  /**
   * `bytes.fromhex(s)`: pairs of hex digits, either case, with ASCII
   * whitespace allowed before each pair (not inside one). Anything else, an
   * odd digit included, makes it raise ValueError, modelled as `None`.
   */
  function FromHex(s: string): (r: Option<seq<Byte>>)
    ensures r.Some? ==> 2 * |r.value| <= |s|
    decreases |s|
  {
    if s == [] then Some([])
    else if IsAsciiSpace(s[0]) then FromHex(s[1..])
    else if |s| >= 2 && IsHexDigit(s[0]) && IsHexDigit(s[1]) then
      match FromHex(s[2..])
      case None => None
      case Some(rest) => Some([16 * HexValue(s[0]) + HexValue(s[1])] + rest)
    else None
  }

  /** `bytes.hex()` / `secrets.token_hex`: two lower-case digits per byte. */
  function ToHex(b: seq<Byte>): (r: string)
    ensures |r| == 2 * |b|
    ensures forall k :: 0 <= k < |r| ==> IsHexDigit(r[k]) && !('A' <= r[k] <= 'F')
  {
    if b == [] then [] else [HexChar(b[0] / 16), HexChar(b[0] % 16)] + ToHex(b[1..])
  }

  lemma HexCharValue(n: nat)
    requires n < 16
    ensures IsHexDigit(HexChar(n)) && !IsAsciiSpace(HexChar(n))
    ensures HexValue(HexChar(n)) == n
  {
  }

  lemma ByteSplit(x: Byte)
    ensures x / 16 < 16 && 16 * (x / 16) + x % 16 == x
  {
  }

  /** The first pair of `ToHex(b)` is the first byte, the rest is `ToHex` of the rest. */
  lemma ToHexFirst(b: seq<Byte>)
    requires b != []
    ensures var s := ToHex(b);
      s[0] == HexChar(b[0] / 16) && s[1] == HexChar(b[0] % 16) && s[2..] == ToHex(b[1..])
  {
  }

  /** Reading back what `token_hex` wrote gives the same bytes. */
  lemma {:induction false} FromHexToHex(b: seq<Byte>)
    ensures FromHex(ToHex(b)) == Some(b)
  {
    if b != [] {
      var s := ToHex(b);
      ToHexFirst(b);
      ByteSplit(b[0]);
      HexCharValue(b[0] / 16);
      HexCharValue(b[0] % 16);
      FromHexToHex(b[1..]);
      assert FromHex(s) == Some([16 * (b[0] / 16) + b[0] % 16] + b[1..]);
      assert [b[0]] + b[1..] == b;
    }
  }

  /** Examples: an odd digit or a non-hex character fails; spaces between pairs and upper case are read. */
  lemma FromHexExamples()
    ensures FromHex("abc") == None
    ensures FromHex("zz") == None
    ensures FromHex(" 0A ff") == Some([10, 255])
  {
    assert "abc"[2..] == "c";
    var s := " 0A ff";
    var t := s[1..][2..][1..];
    assert t == "ff" && t[2..] == [];
    assert FromHex(t[2..]) == Some([]);
    var ff: seq<Byte> := [16 * HexValue(t[0]) + HexValue(t[1])] + [];
    assert FromHex(t) == Some(ff);
    var u := s[1..];
    assert u[2..][1..] == t;
    assert FromHex(u[2..]) == Some(ff);
    var both: seq<Byte> := [16 * HexValue(u[0]) + HexValue(u[1])] + ff;
    assert FromHex(u) == Some(both);
    assert both == [10, 255];
  }
}
