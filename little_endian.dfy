/** Bytes and the little-endian integer encodings the NetSDR wire format is built from
    (the BitConverter conversions the client and its tests use). */
module LittleEndian {

  type byte = b: int | 0 <= b < 256

  type Bytes = seq<byte>

  /** 256 to the power n: one more than the largest value n bytes can hold. */
  function Pow256(n: nat): (r: nat)
    ensures r >= 1
  {
    if n == 0 then 1 else 256 * Pow256(n - 1)
  }

  /** The unsigned value of a little-endian byte string (BitConverter.ToUInt16 / ToUInt32 on |s| bytes). */
  function FromLE(s: Bytes): (r: nat)
    ensures r < Pow256(|s|)
  {
    if s == [] then 0 else s[0] + 256 * FromLE(s[1..])
  }

  /** The n low-order bytes of x, least significant first: BitConverter.GetBytes truncated to n bytes. */
  function ToLE(x: nat, n: nat): (r: Bytes)
    ensures |r| == n
    ensures n > 0 ==> r[0] == x % 256
  {
    if n == 0 then [] else [x % 256] + ToLE(x / 256, n - 1)
  }

  /** Dropping the low byte of a number below 256p leaves a number below p. */
  lemma HighBytesBelow(x: nat, p: nat)
    requires x < 256 * p
    ensures x / 256 < p && x == 256 * (x / 256) + x % 256
  {
  }

  /** Euclidean division has a unique quotient and remainder. */
  lemma LemmaDivModUnique(x: int, d: int, q: int, r: int)
    requires d > 0 && 0 <= r < d && x == d * q + r
    ensures x % d == r && x / d == q
  {
    var q', r' := x / d, x % d;
    assert d * (q - q') == r' - r;
    if q - q' >= 1 {
      MulAtLeast(d, q - q');
    } else if q' - q >= 1 {
      MulAtLeast(d, q' - q);
    }
  }

  lemma MulAtLeast(d: int, k: int)
    requires d > 0 && k >= 1
    ensures d * k >= d
  {
  }

  /** The value of a byte followed by a string: the byte plus 256 times the string's value. */
  lemma FromLECons(b: byte, t: Bytes)
    ensures FromLE([b] + t) == b + 256 * FromLE(t)
  {
    assert ([b] + t)[1..] == t;
  }

  /** A value below 256^n survives encoding and decoding unchanged. */
  lemma {:induction false} RoundTripLE(x: nat, n: nat)
    requires x < Pow256(n)
    ensures FromLE(ToLE(x, n)) == x
  {
    if n > 0 {
      var q, b := x / 256, x % 256;
      HighBytesBelow(x, Pow256(n - 1));
      RoundTripLE(q, n - 1);
      FromLECons(b, ToLE(q, n - 1));
    }
  }

  /** Encoding the value of a byte string in as many bytes gives the string back. */
  lemma {:induction false} ToFromLE(s: Bytes)
    ensures ToLE(FromLE(s), |s|) == s
  {
    if s != [] {
      var x, rest := FromLE(s), FromLE(s[1..]);
      assert x == 256 * rest + s[0];
      LemmaDivModUnique(x, 256, rest, s[0]);
      ToFromLE(s[1..]);
      assert ToLE(x, |s|) == [s[0]] + ToLE(rest, |s| - 1);
    }
  }

  /** Two byte strings of equal length with the same value are equal: decoding is injective per width. */
  lemma FromLEInjective(a: Bytes, b: Bytes)
    requires |a| == |b| && FromLE(a) == FromLE(b)
    ensures a == b
  {
    ToFromLE(a);
    ToFromLE(b);
  }

  /** Half the number of w-byte patterns: the signed w-byte range is [-HalfRange(w), HalfRange(w)). */
  function HalfRange(w: nat): (h: nat)
    requires w >= 1
    ensures Pow256(w) == 2 * h
  {
    128 * Pow256(w - 1)
  }

  /** The two's-complement value of an unsigned w-byte quantity (what BitConverter.ToInt32 yields at w = 4). */
  function SignExtend(u: nat, w: nat): (v: int)
    requires w >= 1 && u < Pow256(w)
    ensures -(HalfRange(w) as int) <= v < HalfRange(w)
    ensures v < 0 <==> u >= HalfRange(w)
    ensures u < HalfRange(w) ==> v == u
    ensures u >= HalfRange(w) ==> v == u - Pow256(w)
  {
    if u >= HalfRange(w) then u - Pow256(w) else u
  }

  /** The w-byte two's-complement pattern of v, as an unsigned number (Euclidean remainder keeps the low bits). */
  function TwosComplement(v: int, w: nat): (u: nat)
    ensures u < Pow256(w)
  {
    v % Pow256(w)
  }

  /** A value already in 0 .. 256^w - 1 is its own w-byte pattern. */
  lemma TwosComplementOfUnsigned(v: int, w: nat)
    requires 0 <= v < Pow256(w)
    ensures TwosComplement(v, w) == v
  {
    LemmaDivModUnique(v, Pow256(w), 0, v);
  }

  /** Every value in the signed w-byte range is recovered from its two's-complement pattern. */
  lemma SignExtendTwosComplement(v: int, w: nat)
    requires w >= 1 && -(HalfRange(w) as int) <= v < HalfRange(w)
    ensures SignExtend(TwosComplement(v, w), w) == v
  {
    if v < 0 {
      LemmaDivModUnique(v, Pow256(w), -1, v + Pow256(w));
    } else {
      TwosComplementOfUnsigned(v, w);
    }
  }

  /** Narrowing to a 16-bit signed integer, as C#'s unchecked (short) cast does. */
  function ToInt16(v: int): (r: int)
    ensures -32768 <= r < 32768
    ensures (r - v) % 65536 == 0
    ensures -32768 <= v < 32768 ==> r == v
  {
    (v + 32768) % 65536 - 32768
  }
}
