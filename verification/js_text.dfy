/**
 * The JavaScript string operations the license generator relies on:
 * `String.prototype.trim`, `substring`, `padStart`, `toUpperCase`,
 * `Array.prototype.join` over strings, and `Number.prototype.toString(16)`.
 * Strings are sequences of characters, as in the rest of the model.
 */
module JsText {

  /** The characters `trim` removes: ECMAScript's WhiteSpace and LineTerminator code points. */
  predicate IsWhitespace(c: char) {
    var n := c as int;
    n == 0x09 || n == 0x0A || n == 0x0B || n == 0x0C || n == 0x0D || n == 0x20 ||
    n == 0xA0 || n == 0x1680 || (0x2000 <= n <= 0x200A) || n == 0x2028 ||
    n == 0x2029 || n == 0x202F || n == 0x205F || n == 0x3000 || n == 0xFEFF
  }

  predicate AllWhitespace(s: string) {
    forall i :: 0 <= i < |s| ==> IsWhitespace(s[i])
  }

  /** The first index from `i` on that holds no whitespace, or `|s|` when there is none. */
  function TrimStartIndex(s: string, i: nat): (k: nat)
    requires i <= |s|
    ensures i <= k <= |s|
    ensures forall j :: i <= j < k ==> IsWhitespace(s[j])
    ensures k < |s| ==> !IsWhitespace(s[k])
    decreases |s| - i
  {
    if i < |s| && IsWhitespace(s[i]) then TrimStartIndex(s, i + 1) else i
  }

  /** The end of `s[lo..j]` once its trailing whitespace is dropped. */
  function TrimEndIndex(s: string, lo: nat, j: nat): (k: nat)
    requires lo <= j <= |s|
    ensures lo <= k <= j
    ensures forall m :: k <= m < j ==> IsWhitespace(s[m])
    ensures k > lo ==> !IsWhitespace(s[k - 1])
    decreases j
  {
    if j > lo && IsWhitespace(s[j - 1]) then TrimEndIndex(s, lo, j - 1) else j
  }

  /** `s.trim()`: `s` without its leading and trailing whitespace. */
  function Trim(s: string): (r: string)
    ensures r == [] || (!IsWhitespace(r[0]) && !IsWhitespace(r[|r| - 1]))
  {
    var a := TrimStartIndex(s, 0);
    s[a..TrimEndIndex(s, a, |s|)]
  }

  /** The trimmed string is empty exactly when the whole string is whitespace. */
  lemma TrimBlank(s: string)
    ensures Trim(s) == [] <==> AllWhitespace(s)
  {
  }

  /**
   * `trim` is characterised by its result: whenever everything before index
   * `i` and from index `j` on is whitespace, and `s[i..j]` is empty or has
   * no whitespace at either end, `Trim(s)` is `s[i..j]`.
   */
  lemma TrimUnique(s: string, i: nat, j: nat)
    requires i <= j <= |s|
    requires forall k :: 0 <= k < i ==> IsWhitespace(s[k])
    requires forall k :: j <= k < |s| ==> IsWhitespace(s[k])
    requires i == j || (!IsWhitespace(s[i]) && !IsWhitespace(s[j - 1]))
    ensures Trim(s) == s[i..j]
  {
    var a := TrimStartIndex(s, 0);
    if i == j {
      assert AllWhitespace(s) by {
        forall k | 0 <= k < |s|
          ensures IsWhitespace(s[k])
        {
          if k < i {
          } else {
            assert j <= k;
          }
        }
      }
      TrimBlank(s);
    } else {
      assert a == i;
      assert TrimEndIndex(s, a, |s|) == j;
    }
  }

  /** Whitespace around a string does not change what `trim` returns. */
  lemma TrimIgnoresPadding(pre: string, s: string, post: string)
    requires AllWhitespace(pre) && AllWhitespace(post)
    ensures Trim(pre + s + post) == Trim(s)
  {
    var t := pre + s + post;
    var a := TrimStartIndex(s, 0);
    var b := TrimEndIndex(s, a, |s|);
    var i, j := |pre| + a, |pre| + b;
    forall k | 0 <= k < i
      ensures IsWhitespace(t[k])
    {
      if k < |pre| {
        assert t[k] == pre[k];
      } else {
        assert t[k] == s[k - |pre|];
      }
    }
    forall k | j <= k < |t|
      ensures IsWhitespace(t[k])
    {
      if k < |pre| + |s| {
        assert t[k] == s[k - |pre|];
      } else {
        assert t[k] == post[k - |pre| - |s|];
      }
    }
    assert t[i..j] == s[a..b];
    TrimUnique(t, i, j);
  }

  /** `trim` leaves a string alone exactly when neither end is whitespace. */
  lemma TrimFixedPoint(s: string)
    ensures Trim(s) == s <==> (s == [] || (!IsWhitespace(s[0]) && !IsWhitespace(s[|s| - 1])))
  {
    if s == [] || (!IsWhitespace(s[0]) && !IsWhitespace(s[|s| - 1])) {
      TrimUnique(s, 0, |s|);
    }
  }

  /** Trimming a trimmed string changes nothing. */
  lemma TrimIdempotent(s: string)
    ensures Trim(Trim(s)) == Trim(s)
  {
    TrimFixedPoint(Trim(s));
  }

  function Min(a: int, b: int): int {
    if a <= b then a else b
  }

  /**
   * `s.substring(start, end)`: both indices are clamped to the length of `s`,
   * and they are swapped when `start` exceeds `end`.
   */
  function Substring(s: string, start: nat, end: nat): (r: string)
    ensures start <= end <= |s| ==> r == s[start..end]
    ensures end <= start <= |s| ==> r == s[end..start]
    ensures start <= |s| <= end ==> r == s[start..]
    ensures |s| <= start && |s| <= end ==> r == []
  {
    var a := Min(start, |s|);
    var b := Min(end, |s|);
    if a <= b then s[a..b] else s[b..a]
  }

  /** `s.padStart(width, fill)` with a one-character fill string. */
  function PadStart(s: string, width: nat, fill: char): (r: string)
    ensures |r| == if |s| < width then width else |s|
    ensures r[|r| - |s|..] == s
    ensures forall i :: 0 <= i < |r| - |s| ==> r[i] == fill
  {
    if |s| < width then seq(width - |s|, _ => fill) + s else s
  }

  /** The ASCII upper-case mapping that `toUpperCase` applies to `a`-`z`. */
  function UpperChar(c: char): char {
    if 'a' <= c <= 'z' then (c as int - 'a' as int + 'A' as int) as char else c
  }

  /** `s.toUpperCase()`, restricted to the ASCII letters (see README). */
  function ToUpperCase(s: string): (r: string)
    ensures |r| == |s|
    ensures forall i :: 0 <= i < |r| ==> !('a' <= r[i] <= 'z')
    ensures forall i :: 0 <= i < |s| && 'a' <= s[i] <= 'z' ==> r[i] as int == s[i] as int - 'a' as int + 'A' as int
    ensures forall i :: 0 <= i < |s| && !('a' <= s[i] <= 'z') ==> r[i] == s[i]
  {
    if s == [] then [] else [UpperChar(s[0])] + ToUpperCase(s[1..])
  }

  /** Upper-casing works character by character, so it distributes over concatenation. */
  lemma {:induction false} ToUpperCaseAppend(a: string, b: string)
    ensures ToUpperCase(a + b) == ToUpperCase(a) + ToUpperCase(b)
    decreases |a|
  {
    if a == [] {
      assert a + b == b;
    } else {
      assert (a + b)[1..] == a[1..] + b;
      ToUpperCaseAppend(a[1..], b);
    }
  }

  /** `parts.join('')`. */
  function Join(parts: seq<string>): string {
    if parts == [] then "" else parts[0] + Join(parts[1..])
  }

  /** Digit `d` (0..15) as JavaScript writes it in base 16: `0`-`9`, then `a`-`f`. */
  function LowerDigit(d: nat): (c: char)
    requires d < 16
  {
    if d < 10 then ('0' as int + d) as char else ('a' as int + d - 10) as char
  }

  /** The value of a lower-case hexadecimal digit. */
  function DigitValue(c: char): nat {
    if '0' <= c <= '9' then c as int - '0' as int
    else if 'a' <= c <= 'f' then c as int - 'a' as int + 10
    else 0
  }

  predicate IsLowerHexDigit(c: char) {
    '0' <= c <= '9' || 'a' <= c <= 'f'
  }

  /** `n.toString(16)`: lower-case base-16 digits without leading zeros. */
  function ToRadix16(n: nat): (r: string)
    ensures |r| >= 1
    ensures forall i :: 0 <= i < |r| ==> IsLowerHexDigit(r[i])
    ensures |r| > 1 ==> r[0] != '0'
    ensures n < 16 <==> |r| == 1
    ensures 16 <= n < 256 <==> |r| == 2
    decreases n
  {
    if n < 16 then [LowerDigit(n)] else ToRadix16(n / 16) + [LowerDigit(n % 16)]
  }

  /** The number a string of lower-case hexadecimal digits denotes. */
  function HexValue(s: string): nat {
    if s == [] then 0 else 16 * HexValue(s[..|s| - 1]) + DigitValue(s[|s| - 1])
  }

  /** Reading back what `toString(16)` wrote gives the original number. */
  lemma {:induction false} ToRadix16RoundTrip(n: nat)
    ensures HexValue(ToRadix16(n)) == n
    decreases n
  {
    var r := ToRadix16(n);
    if n >= 16 {
      ToRadix16RoundTrip(n / 16);
      assert r[..|r| - 1] == ToRadix16(n / 16);
    }
  }
}
