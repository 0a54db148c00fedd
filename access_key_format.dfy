/** The text of an access key: `Guid.ToString("N")` prints a Guid's 16 bytes as
    32 lower-case hexadecimal digits with no separators, and the service compares
    keys either exactly or with `StringComparison.OrdinalIgnoreCase`. */
module AccessKeyFormat {

  type Byte = b: nat | b < 256

  /** A Guid, as the 16 bytes in the order "N" format prints them. */
  type Guid = s: seq<Byte> | |s| == 16 witness seq(16, i => 0)

  predicate IsLowerHexDigit(c: char) {
    '0' <= c <= '9' || 'a' <= c <= 'f'
  }

  predicate IsLowerHex(s: string) {
    forall i :: 0 <= i < |s| ==> IsLowerHexDigit(s[i])
  }

  function HexDigit(n: nat): (c: char)
    requires n < 16
    ensures IsLowerHexDigit(c)
  {
    if n < 10 then ('0' as int + n) as char else ('a' as int + n - 10) as char
  }

  /** The value of one lower-case hexadecimal digit; it is the inverse of HexDigit. */
  function DigitValue(c: char): (n: nat)
    requires IsLowerHexDigit(c)
    ensures n < 16 && HexDigit(n) == c
  {
    if c <= '9' then c as int - '0' as int else c as int - 'a' as int + 10
  }

  /** Each byte as two digits, high nibble first. */
  function FormatBytes(bytes: seq<Byte>): (s: string)
    ensures |s| == 2 * |bytes|
    ensures IsLowerHex(s)
  {
    if bytes == [] then []
    else [HexDigit(bytes[0] / 16), HexDigit(bytes[0] % 16)] + FormatBytes(bytes[1..])
  }

  /** `Guid.ToString("N", CultureInfo.InvariantCulture)`: always 32 lower-case hex digits,
      the width of the fixed-length `char(32)` key column. */
  function FormatN(g: Guid): (key: string)
    ensures |key| == 32 && IsLowerHex(key)
  {
    FormatBytes(g)
  }

  /** Reads digit pairs back into bytes. */
  function ParseBytes(s: string): (bytes: seq<Byte>)
    requires |s| % 2 == 0 && IsLowerHex(s)
    ensures 2 * |bytes| == |s|
  {
    if s == [] then []
    else [DigitValue(s[0]) * 16 + DigitValue(s[1])] + ParseBytes(s[2..])
  }

  lemma {:induction false} ParseFormatBytes(bytes: seq<Byte>)
    ensures ParseBytes(FormatBytes(bytes)) == bytes
  {
    if bytes != [] {
      var b := bytes[0];
      var s := FormatBytes(bytes);
      assert s[2..] == FormatBytes(bytes[1..]);
      assert DigitValue(s[0]) == b / 16 && DigitValue(s[1]) == b % 16;
      ParseFormatBytes(bytes[1..]);
    }
  }

  /** Distinct Guids give distinct keys: the "N" text loses no information. */
  lemma FormatNInjective(g1: Guid, g2: Guid)
    ensures FormatN(g1) == FormatN(g2) <==> g1 == g2
  {
    ParseFormatBytes(g1);
    ParseFormatBytes(g2);
  }

  /** Upper-case mapping used by OrdinalIgnoreCase, on the ASCII letters. */
  function UpperInvariant(c: char): (u: char)
    ensures ('a' <= c <= 'z') == (u != c)
  {
    if 'a' <= c <= 'z' then (c as int - 32) as char else c
  }

  /** `string.Equals(a, b, StringComparison.OrdinalIgnoreCase)`. */
  predicate EqualsIgnoreCase(a: string, b: string) {
    |a| == |b| && forall i :: 0 <= i < |a| ==> UpperInvariant(a[i]) == UpperInvariant(b[i])
  }

  /** An exact match is also a case-insensitive one, so the case-insensitive
      search after a successful exact search finds at least one key. */
  lemma ExactMatchIgnoresCase(a: string, b: string)
    ensures a == b ==> EqualsIgnoreCase(a, b)
    ensures EqualsIgnoreCase(a, b) == EqualsIgnoreCase(b, a)
  {
  }

  /** On keys in "N" format the two comparisons agree; they differ only on
      keys holding upper-case letters. */
  lemma LowerHexIgnoreCaseIsExact(a: string, b: string)
    requires IsLowerHex(a) && IsLowerHex(b)
    ensures EqualsIgnoreCase(a, b) <==> a == b
  {
    if EqualsIgnoreCase(a, b) {
      forall i | 0 <= i < |a| ensures a[i] == b[i] {
        assert IsLowerHexDigit(a[i]) && IsLowerHexDigit(b[i]);
      }
    }
  }
}
