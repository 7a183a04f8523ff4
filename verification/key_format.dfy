/**
 * Canonicalisation of the keyed-hash digest into a license key: every byte
 * becomes two zero-padded hexadecimal digits, the string is upper-cased, the
 * first twelve characters are kept and split into `XXXX-XXXX-XXXX`.
 */
module KeyFormat {
  import opened JsText

  /** One byte of the digest. */
  type Byte = b: int | 0 <= b < 256

  /** Digit `d` (0..15) in upper-case hexadecimal: `0`-`9`, then `A`-`F`. */
  function UpperDigit(d: nat): (c: char)
    requires d < 16
  {
    if d < 10 then ('0' as int + d) as char else ('A' as int + d - 10) as char
  }

  predicate IsUpperHexDigit(c: char) {
    '0' <= c <= '9' || 'A' <= c <= 'F'
  }

  /** `b.toString(16).padStart(2, '0')`: always two characters for a byte. */
  function ByteHex(b: Byte): (r: string)
    ensures |r| == 2
  {
    PadStart(ToRadix16(b), 2, '0')
  }

  /** `digest.map(b => b.toString(16).padStart(2, '0'))`. */
  function ByteHexes(digest: seq<Byte>): (parts: seq<string>)
    ensures |parts| == |digest|
  {
    if digest == [] then [] else [ByteHex(digest[0])] + ByteHexes(digest[1..])
  }

  /** `digest.map(b => b.toString(16).padStart(2, '0')).join('').toUpperCase()`. */
  function HexEncode(digest: seq<Byte>): string {
    ToUpperCase(Join(ByteHexes(digest)))
  }

  /** Reference rendering of one byte: its high nibble, then its low nibble, in upper case. */
  function Nibbles(b: Byte): string {
    [UpperDigit(b / 16), UpperDigit(b % 16)]
  }

  /** Reference rendering of a digest: the nibbles of every byte, in order. */
  function HexDigits(digest: seq<Byte>): (r: string)
    ensures |r| == 2 * |digest|
  {
    if digest == [] then [] else Nibbles(digest[0]) + HexDigits(digest[1..])
  }

  /** The padded rendering of a byte is its high nibble then its low nibble, with a leading `0` below 16. */
  lemma ByteHexNibbles(b: Byte)
    ensures ByteHex(b) == [LowerDigit(b / 16), LowerDigit(b % 16)]
  {
    var t := ToRadix16(b);
    if b < 16 {
      assert t == [LowerDigit(b)];
      assert b / 16 == 0 && b % 16 == b;
      assert PadStart(t, 2, '0') == PadStart(['0'] + t, 2, '0');
      assert LowerDigit(0) == '0';
    } else {
      var hi, lo := b / 16, b % 16;
      assert hi < 16;
      assert t == ToRadix16(hi) + [LowerDigit(lo)];
      assert ToRadix16(hi) == [LowerDigit(hi)];
    }
  }

  lemma UpperOfLowerDigit(d: nat)
    requires d < 16
    ensures UpperChar(LowerDigit(d)) == UpperDigit(d)
  {
  }

  /** Upper-casing the padded rendering of a byte gives its two nibbles. */
  lemma UpperByteHex(b: Byte)
    ensures ToUpperCase(ByteHex(b)) == Nibbles(b)
  {
    ByteHexNibbles(b);
    UpperOfLowerDigit(b / 16);
    UpperOfLowerDigit(b % 16);
    UpperPair(LowerDigit(b / 16), LowerDigit(b % 16));
  }

  lemma UpperPair(x: char, y: char)
    ensures ToUpperCase([x, y]) == [UpperChar(x), UpperChar(y)]
  {
    assert [x, y][1..] == [y] && [y][1..] == [];
  }

  /** The rendering through `toString(16)`, `padStart`, `join` and `toUpperCase` is the reference rendering. */
  lemma {:induction false} HexEncodeIsHexDigits(digest: seq<Byte>)
    ensures HexEncode(digest) == HexDigits(digest)
    decreases |digest|
  {
    if digest != [] {
      var parts := ByteHexes(digest);
      assert parts[1..] == ByteHexes(digest[1..]);
      assert Join(parts) == ByteHex(digest[0]) + Join(ByteHexes(digest[1..]));
      ToUpperCaseAppend(ByteHex(digest[0]), Join(ByteHexes(digest[1..])));
      UpperByteHex(digest[0]);
      HexEncodeIsHexDigits(digest[1..]);
    }
  }

  /** Characters `2i` and `2i + 1` of the reference rendering are the nibbles of byte `i`. */
  lemma {:induction false} HexDigitsAt(digest: seq<Byte>, i: nat)
    requires i < |digest|
    ensures HexDigits(digest)[2 * i] == UpperDigit(digest[i] / 16)
    ensures HexDigits(digest)[2 * i + 1] == UpperDigit(digest[i] % 16)
    decreases i
  {
    if i > 0 {
      HexDigitsAt(digest[1..], i - 1);
      assert digest[1..][i - 1] == digest[i];
    }
  }

  /** Characters `2i` and `2i + 1` of the rendering, for one byte `i`. */
  lemma HexEncodeAt(digest: seq<Byte>, i: nat)
    requires i < |digest|
    ensures |HexEncode(digest)| == 2 * |digest|
    ensures HexEncode(digest)[2 * i] == UpperDigit(digest[i] / 16)
    ensures HexEncode(digest)[2 * i + 1] == UpperDigit(digest[i] % 16)
  {
    HexEncodeIsHexDigits(digest);
    HexDigitsAt(digest, i);
  }

  /**
   * The hexadecimal rendering of an n-byte digest has 2n characters;
   * characters 2i and 2i+1 are the high and the low nibble of byte i, in
   * upper case, so a byte below 16 gets a leading `0`.
   */
  lemma HexEncodeDigits(digest: seq<Byte>)
    ensures |HexEncode(digest)| == 2 * |digest|
    ensures forall i :: 0 <= i < |digest| ==>
      HexEncode(digest)[2 * i] == UpperDigit(digest[i] / 16) &&
      HexEncode(digest)[2 * i + 1] == UpperDigit(digest[i] % 16)
  {
    HexEncodeIsHexDigits(digest);
    forall i | 0 <= i < |digest|
      ensures HexEncode(digest)[2 * i] == UpperDigit(digest[i] / 16)
      ensures HexEncode(digest)[2 * i + 1] == UpperDigit(digest[i] % 16)
    {
      HexDigitsAt(digest, i);
    }
  }

  /** Character `j` of the reference rendering is one of `0-9A-F`. */
  lemma {:induction false} HexDigitsUpperAt(digest: seq<Byte>, j: nat)
    requires j < 2 * |digest|
    ensures IsUpperHexDigit(HexDigits(digest)[j])
    decreases j
  {
    if j >= 2 {
      HexDigitsUpperAt(digest[1..], j - 2);
      assert HexDigits(digest)[j] == HexDigits(digest[1..])[j - 2];
    }
  }

  /** Every character of the hexadecimal rendering is one of `0-9A-F`. */
  lemma HexEncodeIsUpperHex(digest: seq<Byte>)
    ensures forall j :: 0 <= j < |HexEncode(digest)| ==> IsUpperHexDigit(HexEncode(digest)[j])
  {
    HexEncodeIsHexDigits(digest);
    forall j | 0 <= j < 2 * |digest|
      ensures IsUpperHexDigit(HexDigits(digest)[j])
    {
      HexDigitsUpperAt(digest, j);
    }
  }

  /** Lines 56-57: keep the first 12 characters and split them 4-4-4 with hyphens. */
  function FormatKey(hex: string): string {
    var raw := Substring(hex, 0, 12);
    Substring(raw, 0, 4) + "-" + Substring(raw, 4, 8) + "-" + Substring(raw, 8, 12)
  }

  /** The license key derived from a digest. */
  function DeriveKey(digest: seq<Byte>): string {
    FormatKey(HexEncode(digest))
  }

  /** The shape `^[0-9A-F]{4}-[0-9A-F]{4}-[0-9A-F]{4}$`. */
  predicate IsKeyShape(k: string) {
    |k| == 14 && k[4] == '-' && k[9] == '-' &&
    forall i :: 0 <= i < 14 && i != 4 && i != 9 ==> IsUpperHexDigit(k[i])
  }

  /** The string with every hyphen removed. */
  function RemoveHyphens(s: string): (r: string)
    ensures |r| <= |s|
    ensures forall i :: 0 <= i < |r| ==> r[i] != '-'
  {
    if s == [] then "" else (if s[0] == '-' then "" else [s[0]]) + RemoveHyphens(s[1..])
  }

  predicate NoHyphens(s: string) {
    forall i :: 0 <= i < |s| ==> s[i] != '-'
  }

  /** A hyphen-free group followed by a hyphen loses only the hyphen. */
  lemma {:induction false} RemoveHyphensGroup(g: string, rest: string)
    requires NoHyphens(g)
    ensures RemoveHyphens(g + "-" + rest) == g + RemoveHyphens(rest)
    decreases |g|
  {
    if g == [] {
      assert g + "-" + rest == "-" + rest;
      assert ("-" + rest)[1..] == rest;
    } else {
      assert (g + "-" + rest)[0] == g[0];
      assert (g + "-" + rest)[1..] == g[1..] + "-" + rest;
      RemoveHyphensGroup(g[1..], rest);
      assert [g[0]] + g[1..] == g;
    }
  }

  lemma {:induction false} RemoveHyphensNone(s: string)
    requires NoHyphens(s)
    ensures RemoveHyphens(s) == s
    decreases |s|
  {
    if s != [] {
      RemoveHyphensNone(s[1..]);
    }
  }

  /** Dropping the hyphens between three hyphen-free groups concatenates the groups. */
  lemma RemoveHyphensJoined(g1: string, g2: string, g3: string)
    requires NoHyphens(g1) && NoHyphens(g2) && NoHyphens(g3)
    ensures RemoveHyphens(g1 + "-" + g2 + "-" + g3) == g1 + g2 + g3
  {
    var tail := g2 + "-" + g3;
    assert g1 + "-" + g2 + "-" + g3 == g1 + "-" + tail;
    RemoveHyphensGroup(g1, tail);
    RemoveHyphensGroup(g2, g3);
    RemoveHyphensNone(g3);
  }

  /** A twelve-character string is formatted as its three groups of four joined by hyphens. */
  lemma FormatKeyOfTwelve(raw: string)
    requires |raw| == 12
    ensures FormatKey(raw) == raw[..4] + "-" + raw[4..8] + "-" + raw[8..]
  {
    assert raw[0..12] == raw;
  }

  /** Only the first twelve characters of the rendering reach the key. */
  lemma FormatKeyPrefix(hex: string)
    requires |hex| >= 12
    ensures FormatKey(hex) == FormatKey(hex[..12])
  {
    assert hex[..12][0..12] == hex[..12];
  }

  /** Twelve upper-case hexadecimal digits are formatted as `XXXX-XXXX-XXXX`. */
  lemma FormatKeyShape(raw: string)
    requires |raw| == 12 && forall i :: 0 <= i < 12 ==> IsUpperHexDigit(raw[i])
    ensures IsKeyShape(FormatKey(raw))
  {
    var k := FormatKey(raw);
    FormatKeyOfTwelve(raw);
    forall i | 0 <= i < 14 && i != 4 && i != 9
      ensures IsUpperHexDigit(k[i])
    {
      if i < 4 {
        assert k[i] == raw[i];
      } else if i < 9 {
        assert k[i] == raw[i - 1];
      } else {
        assert k[i] == raw[i - 2];
      }
    }
  }

  /** Removing the two hyphens of a well-shaped key leaves its three groups, in order. */
  lemma RemoveHyphensOfShape(k: string)
    requires IsKeyShape(k)
    ensures RemoveHyphens(k) == k[..4] + k[5..9] + k[10..]
  {
    assert k == k[..4] + "-" + k[5..9] + "-" + k[10..];
    RemoveHyphensJoined(k[..4], k[5..9], k[10..]);
  }

  /** Every key of the shape `XXXX-XXXX-XXXX` is the formatting of its own twelve digits. */
  lemma FormatKeyRoundTrip(k: string)
    requires IsKeyShape(k)
    ensures FormatKey(RemoveHyphens(k)) == k
  {
    RemoveHyphensOfShape(k);
    var raw := k[..4] + k[5..9] + k[10..];
    FormatKeyOfTwelve(raw);
    assert raw[..4] == k[..4] && raw[4..8] == k[5..9] && raw[8..] == k[10..];
  }

  /** For a digest of at least six bytes, the key has the shape `XXXX-XXXX-XXXX`. */
  lemma DeriveKeyShape(digest: seq<Byte>)
    requires |digest| >= 6
    ensures IsKeyShape(DeriveKey(digest))
  {
    HexEncodeIsHexDigits(digest);
    var h := HexDigits(digest);
    FormatKeyPrefix(h);
    var raw := h[..12];
    forall i | 0 <= i < 12
      ensures IsUpperHexDigit(raw[i])
    {
      HexDigitsUpperAt(digest, i);
    }
    FormatKeyShape(raw);
  }

  /** Formatting twelve hyphen-free characters and dropping the hyphens gives them back. */
  lemma RemoveHyphensOfFormat(raw: string)
    requires |raw| == 12 && NoHyphens(raw)
    ensures RemoveHyphens(FormatKey(raw)) == raw
  {
    FormatKeyOfTwelve(raw);
    var g1, g2, g3 := raw[..4], raw[4..8], raw[8..];
    assert NoHyphens(g1) && NoHyphens(g2) && NoHyphens(g3);
    RemoveHyphensJoined(g1, g2, g3);
    assert g1 + g2 + g3 == raw;
  }

  /** Removing the two hyphens from the key gives exactly the first twelve hexadecimal characters. */
  lemma DeriveKeyDigits(digest: seq<Byte>)
    requires |digest| >= 6
    ensures |HexEncode(digest)| >= 12
    ensures RemoveHyphens(DeriveKey(digest)) == HexEncode(digest)[..12]
  {
    HexEncodeIsHexDigits(digest);
    var h := HexDigits(digest);
    FormatKeyPrefix(h);
    var raw := h[..12];
    forall i | 0 <= i < 12
      ensures raw[i] != '-'
    {
      HexDigitsUpperAt(digest, i);
    }
    RemoveHyphensOfFormat(raw);
  }

  /** Distinct nibbles have distinct upper-case digits. */
  lemma UpperDigitInjective(a: nat, b: nat)
    requires a < 16 && b < 16
    ensures UpperDigit(a) == UpperDigit(b) ==> a == b
  {
  }

  lemma NibblesDetermineByte(a: Byte, b: Byte)
    requires a / 16 == b / 16 && a % 16 == b % 16
    ensures a == b
  {
  }

  /** Equal leading hexadecimal digits come from equal leading bytes. */
  lemma HexPrefixToBytes(d1: seq<Byte>, d2: seq<Byte>, n: nat)
    requires n <= |d1| && n <= |d2|
    requires HexDigits(d1)[..2 * n] == HexDigits(d2)[..2 * n]
    ensures d1[..n] == d2[..n]
  {
    var p1, p2 := HexDigits(d1)[..2 * n], HexDigits(d2)[..2 * n];
    forall i | 0 <= i < n
      ensures d1[i] == d2[i]
    {
      assert p1[2 * i] == p2[2 * i] && p1[2 * i + 1] == p2[2 * i + 1];
      HexDigitsAt(d1, i);
      HexDigitsAt(d2, i);
      UpperDigitInjective(d1[i] / 16, d2[i] / 16);
      UpperDigitInjective(d1[i] % 16, d2[i] % 16);
      NibblesDetermineByte(d1[i], d2[i]);
    }
  }

  /** Equal leading bytes give equal leading hexadecimal digits. */
  lemma {:induction false} BytesToHexPrefix(d1: seq<Byte>, d2: seq<Byte>, n: nat)
    requires n <= |d1| && n <= |d2|
    requires d1[..n] == d2[..n]
    ensures HexDigits(d1)[..2 * n] == HexDigits(d2)[..2 * n]
    decreases n
  {
    if n > 0 {
      assert d1[0] == d2[0];
      assert d1[1..][..n - 1] == d1[..n][1..] == d2[..n][1..] == d2[1..][..n - 1];
      BytesToHexPrefix(d1[1..], d2[1..], n - 1);
      var t1, t2 := HexDigits(d1[1..]), HexDigits(d2[1..]);
      assert HexDigits(d1)[..2 * n] == Nibbles(d1[0]) + t1[..2 * (n - 1)];
      assert HexDigits(d2)[..2 * n] == Nibbles(d2[0]) + t2[..2 * (n - 1)];
    }
  }

  /**
   * The key depends on the first six digest bytes and on nothing else: two
   * digests give the same key exactly when their first six bytes agree.
   */
  lemma DeriveKeyFirstSixBytes(d1: seq<Byte>, d2: seq<Byte>)
    requires |d1| >= 6 && |d2| >= 6
    ensures DeriveKey(d1) == DeriveKey(d2) <==> d1[..6] == d2[..6]
  {
    DeriveKeyDigits(d1);
    DeriveKeyDigits(d2);
    HexEncodeIsHexDigits(d1);
    HexEncodeIsHexDigits(d2);
    FormatKeyPrefix(HexEncode(d1));
    FormatKeyPrefix(HexEncode(d2));
    if DeriveKey(d1) == DeriveKey(d2) {
      HexPrefixToBytes(d1, d2, 6);
    }
    if d1[..6] == d2[..6] {
      BytesToHexPrefix(d1, d2, 6);
    }
  }
}
