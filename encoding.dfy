/** The two byte- and text-level conversions used by collision resolution:
    the little-endian 8-byte encoding of a uint64 (encoding/binary) and the
    signed decimal rendering of `int64(x)` (strconv.FormatInt). */
module Encoding {
  import opened RingTypes

  function Pow256(n: nat): (p: nat)
    ensures p >= 1
  {
    if n == 0 then 1 else 256 * Pow256(n - 1)
  }

  /** The n low bytes of x, least significant first. */
  function LittleEndian(x: nat, n: nat): (bs: seq<byte>)
    ensures |bs| == n
  {
    if n == 0 then [] else [x % 256] + LittleEndian(x / 256, n - 1)
  }

  /** The number whose little-endian bytes are bs. */
  function FromLittleEndian(bs: seq<byte>): (x: nat)
    ensures x < Pow256(|bs|)
  {
    if bs == [] then 0
    else
      var rest := FromLittleEndian(bs[1..]);
      assert rest <= Pow256(|bs| - 1) - 1;
      assert 256 * rest <= 256 * Pow256(|bs| - 1) - 256;
      bs[0] + 256 * rest
  }

  /** What `binary.Write(buf, binary.LittleEndian, x)` puts in the buffer for a uint64. */
  function Uint64Bytes(x: uint64): (bs: seq<byte>)
    ensures |bs| == 8
  {
    LittleEndian(x, 8)
  }

  /** Decoding the n-byte encoding of a number below 256^n gives the number back. */
  lemma {:induction false} FromLittleEndianInverts(x: nat, n: nat)
    requires x < Pow256(n)
    ensures FromLittleEndian(LittleEndian(x, n)) == x
  {
    if n > 0 {
      assert x / 256 < Pow256(n - 1);
      FromLittleEndianInverts(x / 256, n - 1);
      var bs := LittleEndian(x, n);
      assert bs[1..] == LittleEndian(x / 256, n - 1);
    }
  }

  /** Encoding a decoded byte string gives the byte string back. */
  lemma {:induction false} LittleEndianInverts(bs: seq<byte>)
    ensures LittleEndian(FromLittleEndian(bs), |bs|) == bs
  {
    if bs != [] {
      var x := FromLittleEndian(bs);
      var rest := FromLittleEndian(bs[1..]);
      assert x % 256 == bs[0] && x / 256 == rest;
      LittleEndianInverts(bs[1..]);
    }
  }

  /** The 8-byte encoding of a uint64 loses nothing: it decodes to the same value,
      so distinct hash values are fed to the hash function as distinct inputs. */
  lemma Uint64BytesRoundTrip(x: uint64)
    ensures FromLittleEndian(Uint64Bytes(x)) == x
  {
    assert Pow256(8) == TwoTo64;
    FromLittleEndianInverts(x, 8);
  }

  /** Go's `int64(x)` for a uint64: the two's-complement reinterpretation. */
  function ToInt64(x: uint64): (v: int)
    ensures -0x8000_0000_0000_0000 <= v < 0x8000_0000_0000_0000
    ensures v % TwoTo64 == x
  {
    if x < 0x8000_0000_0000_0000 then x else x - TwoTo64
  }

  predicate IsDigit(c: char) { '0' <= c <= '9' }

  function DigitChar(d: nat): (c: char)
    requires d < 10
    ensures IsDigit(c)
  {
    ('0' as int + d) as char
  }

  function DigitValue(c: char): (d: nat)
    requires IsDigit(c)
    ensures d < 10
  {
    (c as int) - ('0' as int)
  }

  /** The decimal digits of n, most significant first, with no leading zeros. */
  function DecimalString(n: nat): (s: string)
    ensures |s| >= 1
    ensures forall i :: 0 <= i < |s| ==> IsDigit(s[i])
  {
    if n < 10 then [DigitChar(n)] else DecimalString(n / 10) + [DigitChar(n % 10)]
  }

  function ParseDecimal(s: string): (n: nat)
    requires forall i :: 0 <= i < |s| ==> IsDigit(s[i])
  {
    if s == [] then 0 else 10 * ParseDecimal(s[..|s| - 1]) + DigitValue(s[|s| - 1])
  }

  /** `strconv.FormatInt(v, 10)`: a minus sign for negatives, then the digits of |v|. */
  function FormatInt(v: int): (s: string)
    ensures |s| >= 1
    ensures s[0] == '-' <==> v < 0
  {
    if v < 0 then "-" + DecimalString(-v) else DecimalString(v)
  }

  /** Reads back a string in the form FormatInt produces; None for any other string. */
  function ParseInt(s: string): Option<int>
  {
    if |s| >= 2 && s[0] == '-' && forall i :: 1 <= i < |s| ==> IsDigit(s[i]) then
      var magnitude: int := ParseDecimal(s[1..]);
      Some(-magnitude)
    else if |s| >= 1 && forall i :: 0 <= i < |s| ==> IsDigit(s[i]) then
      Some(ParseDecimal(s))
    else
      None
  }

  lemma {:induction false} ParseDecimalInverts(n: nat)
    ensures ParseDecimal(DecimalString(n)) == n
  {
    if n >= 10 {
      var s := DecimalString(n);
      assert s[..|s| - 1] == DecimalString(n / 10);
      ParseDecimalInverts(n / 10);
    }
  }

  /** The decimal rendering is lossless, so distinct int64 values get distinct keys. */
  lemma FormatIntInverts(v: int)
    ensures ParseInt(FormatInt(v)) == Some(v)
  {
    var s := FormatInt(v);
    if v < 0 {
      assert s[1..] == DecimalString(-v);
      ParseDecimalInverts(-v);
    } else {
      ParseDecimalInverts(v);
    }
  }
}
