/**
 * The two renderings of a field value: the byte string that Zp.Bytes
 * produces (big.Int's minimal big-endian bytes, reversed to little-endian)
 * and the base-10 numeral that Zp.String produces and ZSet uses as its key.
 */
module Encoding {
  import opened Wrappers
  import Arith

  type byte = b: int | 0 <= b < 256

  // ---------------------------------------------------------------------
  // Reversal

  /** The bytes of s in the opposite order. */
  function Rev(s: seq<byte>): seq<byte>
  {
    if s == [] then [] else [s[|s| - 1]] + Rev(s[..|s| - 1])
  }

  lemma {:induction false} RevLength(s: seq<byte>)
    ensures |Rev(s)| == |s|
  {
    if s != [] {
      RevLength(s[..|s| - 1]);
    }
  }

  /** Position k of the reversal holds position |s| - 1 - k of the original. */
  lemma {:induction false} RevAt(s: seq<byte>, k: nat)
    requires k < |s|
    ensures |Rev(s)| == |s| && Rev(s)[k] == s[|s| - 1 - k]
  {
    RevLength(s);
    if k > 0 {
      RevAt(s[..|s| - 1], k - 1);
    }
  }

  /** Reversing twice gives the original back. */
  lemma RevInvolution(s: seq<byte>)
    ensures Rev(Rev(s)) == s
  {
    RevLength(s);
    RevLength(Rev(s));
    forall k | 0 <= k < |s|
      ensures Rev(Rev(s))[k] == s[k]
    {
      RevAt(Rev(s), k);
      RevAt(s, |s| - 1 - k);
    }
  }

  /** `reversed`: fills a fresh buffer back to front. */
  method Reversed(b: seq<byte>) returns (r: seq<byte>)
    ensures r == Rev(b)
  {
    var l := |b|;
    var result := new byte[l];
    for i := 0 to l
      invariant forall k :: 0 <= k < i ==> result[k] == b[l - k - 1]
    {
      result[i] := b[l - i - 1];
    }
    r := result[..];
    RevLength(b);
    forall k | 0 <= k < l
      ensures r[k] == Rev(b)[k]
    {
      RevAt(b, k);
    }
  }

  // ---------------------------------------------------------------------
  // Big-endian bytes of a natural number

  /** The number a big-endian byte string denotes (big.Int.SetBytes). */
  function BigEndianValue(s: seq<byte>): nat
  {
    if s == [] then 0 else BigEndianValue(s[..|s| - 1]) * 256 + s[|s| - 1]
  }

  /** The shortest big-endian byte string of n (big.Int.Bytes); zero has none. */
  function MinimalBigEndian(n: nat): seq<byte>
  {
    if n == 0 then [] else MinimalBigEndian(n / 256) + [n % 256]
  }

  /** Decoding the encoding of n gives n. */
  lemma {:induction false} BigEndianRoundTrip(n: nat)
    ensures BigEndianValue(MinimalBigEndian(n)) == n
  {
    if n > 0 {
      var s := MinimalBigEndian(n);
      assert s[..|s| - 1] == MinimalBigEndian(n / 256);
      BigEndianRoundTrip(n / 256);
    }
  }

  /**
   * The encoding of n has no leading zero byte and is as short as n allows:
   * n fits in its length, and not in one byte less.
   */
  lemma {:induction false} MinimalBigEndianIsMinimal(n: nat)
    ensures var r := MinimalBigEndian(n);
      && (|r| > 0 ==> r[0] != 0)
      && n < Arith.Pow(256, |r|)
      && (|r| > 0 ==> Arith.Pow(256, |r| - 1) <= n)
  {
    if n > 0 {
      var m := n / 256;
      var r' := MinimalBigEndian(m);
      MinimalBigEndianIsMinimal(m);
      var k := |r'|;
      assert n == m * 256 + n % 256;
      assert Arith.Pow(256, k + 1) == 256 * Arith.Pow(256, k);
      assert m + 1 <= Arith.Pow(256, k);
      assert n < 256 * (m + 1);
      if m > 0 {
        assert Arith.Pow(256, k) == 256 * Arith.Pow(256, k - 1);
        assert 256 * Arith.Pow(256, k - 1) <= 256 * m;
      }
    }
  }

  /** A byte string with no leading zero is the encoding of its own value. */
  lemma {:induction false} CanonicalBigEndian(s: seq<byte>)
    requires s == [] || s[0] != 0
    ensures MinimalBigEndian(BigEndianValue(s)) == s
  {
    if s != [] {
      var s', d := s[..|s| - 1], s[|s| - 1];
      CanonicalBigEndian(s');
      var v := BigEndianValue(s);
      assert v == BigEndianValue(s') * 256 + d;
      Arith.ModUnique(v, 256, BigEndianValue(s'), d);
      if s' == [] {
        assert v == s[0];
      } else {
        assert BigEndianValue(s') != 0;
      }
      assert s == s' + [d];
    }
  }

  // ---------------------------------------------------------------------
  // Base-10 numerals

  predicate IsDigit(c: char) {
    '0' <= c <= '9'
  }

  function DigitChar(d: nat): (c: char)
    requires d < 10
  {
    ('0' as int + d) as char
  }

  function DigitValue(c: char): nat
    requires IsDigit(c)
  {
    c as int - '0' as int
  }

  predicate AllDigits(s: string) {
    forall k :: 0 <= k < |s| ==> IsDigit(s[k])
  }

  /** The numeral of n: base 10, no sign, no leading zero except for "0". */
  function Decimal(n: nat): string
  {
    if n < 10 then [DigitChar(n)] else Decimal(n / 10) + [DigitChar(n % 10)]
  }

  /** The value of a string of digits, most significant first. */
  function DigitsValue(s: string): nat
    requires AllDigits(s)
  {
    if s == [] then 0 else DigitsValue(s[..|s| - 1]) * 10 + DigitValue(s[|s| - 1])
  }

  function ParseDigits(s: string): Option<nat>
  {
    if s != [] && AllDigits(s) then Some(DigitsValue(s)) else None
  }

  /**
   * big.Int.SetString(s, 10): an optional '+' or '-', then one or more
   * decimal digits and nothing else; None for any other string.
   */
  function ParseDecimal(s: string): Option<int>
  {
    if s != [] && (s[0] == '+' || s[0] == '-') then
      match ParseDigits(s[1..])
      case None => None
      case Some(m) =>
        var v: int := if s[0] == '-' then -(m as int) else m;
        Some(v)
    else
      ParseDigits(s)
  }

  /** The numeral of n is a non-empty digit string worth n, with no leading zero. */
  lemma {:induction false} DecimalDigits(n: nat)
    ensures |Decimal(n)| > 0 && AllDigits(Decimal(n))
    ensures DigitsValue(Decimal(n)) == n
    ensures Decimal(n)[0] == '0' ==> n == 0
  {
    if n >= 10 {
      DecimalDigits(n / 10);
      var s := Decimal(n);
      assert s[..|s| - 1] == Decimal(n / 10);
    }
  }

  /** Parsing the numeral of n gives n. */
  lemma DecimalRoundTrip(n: nat)
    ensures ParseDecimal(Decimal(n)) == Some(n)
  {
    DecimalDigits(n);
  }

  /** Different values have different numerals, so a numeral can key a value. */
  lemma DecimalInjective(a: nat, b: nat)
    requires Decimal(a) == Decimal(b)
    ensures a == b
  {
    DecimalRoundTrip(a);
    DecimalRoundTrip(b);
  }
}
