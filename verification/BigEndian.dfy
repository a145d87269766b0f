/**
 * The big-endian integer codec the buffer relies on: fixed-width unsigned
 * values are stored most-significant byte first, and signed values are stored
 * as the bit pattern of their two's-complement reinterpretation as unsigned.
 */
module BigEndian {

  /** One octet of the byte region. */
  type Byte = b: int | 0 <= b < 0x100

  /** The C integer types the fixed-width operations take and return. */
  type U8 = x: int | 0 <= x < 0x100
  type U16 = x: int | 0 <= x < 0x1_0000
  type U32 = x: int | 0 <= x < 0x1_0000_0000
  type U64 = x: int | 0 <= x < 0x1_0000_0000_0000_0000
  type I8 = x: int | -0x80 <= x < 0x80
  type I16 = x: int | -0x8000 <= x < 0x8000
  type I32 = x: int | -0x8000_0000 <= x < 0x8000_0000
  type I64 = x: int | -0x8000_0000_0000_0000 <= x < 0x8000_0000_0000_0000

  /** 256 to the power n: the number of values n bytes can hold. */
  function Pow256(n: nat): (r: nat)
    ensures r >= 1
  {
    if n == 0 then 1 else 0x100 * Pow256(n - 1)
  }

  /** Half the range of n bytes: the bound of the signed n-byte values. */
  function Half(n: nat): (h: int)
    requires 1 <= n
    ensures 2 * h == Pow256(n)
  {
    Pow256(n) / 2
  }

  /** v is representable as a signed n-byte value. */
  predicate SignedFits(v: int, n: nat) {
    1 <= n && -Half(n) <= v < Half(n)
  }

  /** The unsigned n-byte encoding of v, most-significant byte first. */
  function Encode(v: nat, n: nat): (r: seq<Byte>)
    requires v < Pow256(n)
    ensures |r| == n
  {
    if n == 0 then [] else Encode(v / 0x100, n - 1) + [v % 0x100]
  }

  /** The unsigned value of a big-endian byte string. */
  function Decode(s: seq<Byte>): (r: nat)
    ensures r < Pow256(|s|)
  {
    if s == [] then 0
    else
      var d := Decode(s[..|s| - 1]);
      assert d * 0x100 + s[|s| - 1] < Pow256(|s|) by {
        assert d <= Pow256(|s| - 1) - 1;
        assert d * 0x100 <= (Pow256(|s| - 1) - 1) * 0x100;
      }
      d * 0x100 + s[|s| - 1]
  }

  /** The two's-complement bit pattern of v as an unsigned n-byte value. */
  function ToUnsigned(v: int, n: nat): (u: nat)
    requires SignedFits(v, n)
    ensures u < Pow256(n)
    ensures u == v || u == v + Pow256(n)
    ensures v < 0 <==> u >= Half(n)
  {
    if v < 0 then v + Pow256(n) else v
  }

  /** The signed value whose two's-complement bit pattern is the n-byte value u. */
  function FromUnsigned(u: nat, n: nat): (v: int)
    requires 1 <= n && u < Pow256(n)
    ensures SignedFits(v, n)
    ensures u == v || u == v + Pow256(n)
    ensures v < 0 <==> u >= Half(n)
  {
    if u < Half(n) then u else u - Pow256(n)
  }

  /** Decoding the encoding of a value gives the value back. */
  lemma {:induction false} DecodeEncode(v: nat, n: nat)
    requires v < Pow256(n)
    ensures Decode(Encode(v, n)) == v
  {
    if n > 0 {
      var e := Encode(v / 0x100, n - 1);
      DecodeEncode(v / 0x100, n - 1);
      assert (e + [v % 0x100])[..n - 1] == e;
    }
  }

  /** Encoding the value of a byte string gives the byte string back. */
  lemma {:induction false} EncodeDecode(s: seq<Byte>)
    ensures Encode(Decode(s), |s|) == s
  {
    if s != [] {
      var n := |s|;
      var d := Decode(s[..n - 1]);
      assert Decode(s) == d * 0x100 + s[n - 1];
      assert Decode(s) / 0x100 == d && Decode(s) % 0x100 == s[n - 1];
      EncodeDecode(s[..n - 1]);
      assert s == s[..n - 1] + [s[n - 1]];
    }
  }

  /** Two values with the same encoding are the same value. */
  lemma EncodeInjective(v: nat, w: nat, n: nat)
    requires v < Pow256(n) && w < Pow256(n)
    requires Encode(v, n) == Encode(w, n)
    ensures v == w
  {
    DecodeEncode(v, n);
    DecodeEncode(w, n);
  }

  /** The leading byte carries the most significant part of the value. */
  lemma {:induction false} EncodeLeadingByte(v: nat, n: nat)
    requires 1 <= n && v < Pow256(n)
    ensures Encode(v, n)[0] == v / Pow256(n - 1)
  {
    if n > 1 {
      EncodeLeadingByte(v / 0x100, n - 1);
      DivDiv(v, Pow256(n - 2));
    }
  }

  /** Dividing by 256 and then by p is dividing by 256 * p. */
  lemma DivDiv(v: nat, p: nat)
    requires p > 0
    ensures v / 0x100 / p == v / (0x100 * p)
  {
    var q := v / 0x100 / p;
    var r2 := (v / 0x100) % p;
    var r1 := v % 0x100;
    assert v / 0x100 == q * p + r2;
    assert v == (q * p + r2) * 0x100 + r1;
    assert v == q * (0x100 * p) + (r2 * 0x100 + r1);
    assert r2 * 0x100 + r1 < 0x100 * p;
    DivUnique(v, 0x100 * p, q, r2 * 0x100 + r1);
  }

  /** The quotient is the unique q with v == q * d + r and 0 <= r < d. */
  lemma DivUnique(v: nat, d: nat, q: int, r: int)
    requires d > 0 && 0 <= r < d && v == q * d + r
    ensures v / d == q
  {
    var q' := v / d;
    var r' := v % d;
    assert (q - q') * d == r' - r;
    if q > q' {
      assert (q - q') * d >= d by { MulMono(q - q', d); }
    } else if q < q' {
      assert (q' - q) * d >= d by { MulMono(q' - q, d); }
    }
  }

  lemma MulMono(k: int, d: nat)
    requires k >= 1
    ensures k * d >= d
  {
    assert k * d == (k - 1) * d + d;
  }

  /** Reinterpreting as signed undoes reinterpreting as unsigned. */
  lemma SignedRoundTrip(v: int, n: nat)
    requires SignedFits(v, n)
    ensures FromUnsigned(ToUnsigned(v, n), n) == v
  {
  }

  /** Reinterpreting as unsigned undoes reinterpreting as signed. */
  lemma UnsignedRoundTrip(u: nat, n: nat)
    requires 1 <= n && u < Pow256(n)
    ensures ToUnsigned(FromUnsigned(u, n), n) == u
  {
  }

  /**
   * The signed codec round-trips: writing the two's-complement bytes of v
   * and decoding them as signed gives v back, and the bytes are the same as
   * the unsigned encoding of the bit pattern.
   */
  lemma DecodeSignedEncodeSigned(v: int, n: nat)
    requires SignedFits(v, n)
    ensures FromUnsigned(Decode(Encode(ToUnsigned(v, n), n)), n) == v
  {
    DecodeEncode(ToUnsigned(v, n), n);
  }

  /**
   * The other direction: any n stored bytes, read as a signed value and
   * written back, are the same bytes.
   */
  lemma EncodeSignedDecodeSigned(s: seq<Byte>)
    requires 1 <= |s|
    ensures Encode(ToUnsigned(FromUnsigned(Decode(s), |s|), |s|), |s|) == s
  {
    UnsignedRoundTrip(Decode(s), |s|);
    EncodeDecode(s);
  }

  /** A negative value's encoding has its top bit set, a non-negative one's does not. */
  lemma SignBit(v: int, n: nat)
    requires SignedFits(v, n)
    ensures v < 0 <==> Encode(ToUnsigned(v, n), n)[0] >= 0x80
  {
    var u := ToUnsigned(v, n);
    EncodeLeadingByte(u, n);
    var p := Pow256(n - 1);
    assert Half(n) == 0x80 * p;
    if u >= 0x80 * p {
      DivUnique(0x80 * p, p, 0x80, 0);
      DivMono(0x80 * p, u, p);
    } else {
      DivUnique(u, p, u / p, u % p);
      DivMono(u, 0x80 * p - 1, p);
      DivUnique(0x80 * p - 1, p, 0x7f, p - 1);
    }
  }

  lemma DivMono(a: nat, b: nat, d: nat)
    requires d > 0 && a <= b
    ensures a / d <= b / d
  {
    if a / d > b / d {
      MulLe(b / d + 1, a / d, d);
      assert false;
    }
  }

  lemma MulLe(x: int, y: int, d: nat)
    requires x <= y
    ensures x * d <= y * d
  {
    assert y * d - x * d == (y - x) * d;
  }

  /** The byte strings the buffer's tests fix for the codec, one width at a time. */
  lemma Vector64()
    ensures Encode(0x1122334455667788, 8) == [0x11, 0x22, 0x33, 0x44, 0x55, 0x66, 0x77, 0x88]
  {
  }

  lemma DecodeVector64()
    ensures Decode([0x61, 0x62, 0x63, 0x64, 0x65, 0x66, 0x67, 0x68]) == 0x6162636465666768
  {
    assert Encode(0x6162636465666768, 8) == [0x61, 0x62, 0x63, 0x64, 0x65, 0x66, 0x67, 0x68];
    DecodeEncode(0x6162636465666768, 8);
  }

  lemma SignedVector64()
    ensures Encode(ToUnsigned(-0x1122334455667788, 8), 8) == [0xee, 0xdd, 0xcc, 0xbb, 0xaa, 0x99, 0x88, 0x78]
  {
    assert ToUnsigned(-0x1122334455667788, 8) == 0xeeddccbbaa998878;
    assert Encode(0xee, 1) == [0xee];
    assert Encode(0xeedd, 2) == [0xee, 0xdd];
    assert Encode(0xeeddcc, 3) == [0xee, 0xdd, 0xcc];
    assert Encode(0xeeddccbb, 4) == [0xee, 0xdd, 0xcc, 0xbb];
    assert Encode(0xeeddccbbaa, 5) == [0xee, 0xdd, 0xcc, 0xbb, 0xaa];
    assert Encode(0xeeddccbbaa99, 6) == [0xee, 0xdd, 0xcc, 0xbb, 0xaa, 0x99];
    assert Encode(0xeeddccbbaa9988, 7) == [0xee, 0xdd, 0xcc, 0xbb, 0xaa, 0x99, 0x88];
  }

  lemma SignedDecodeVector64()
    ensures FromUnsigned(Decode([0xff, 0x62, 0x63, 0x64, 0x65, 0x66, 0x67, 0x68]), 8) == -44363763471194264
  {
    assert Encode(0xff62636465666768, 8) == [0xff, 0x62, 0x63, 0x64, 0x65, 0x66, 0x67, 0x68];
    DecodeEncode(0xff62636465666768, 8);
  }

  lemma Vector32()
    ensures Encode(ToUnsigned(-0x11223344, 4), 4) == [0xee, 0xdd, 0xcc, 0xbc]
  {
  }

  lemma SignedDecodeVector32()
    ensures FromUnsigned(Decode([0xff, 0x62, 0x63, 0x64]), 4) == -10329244
  {
    assert Encode(0xff626364, 4) == [0xff, 0x62, 0x63, 0x64];
    DecodeEncode(0xff626364, 4);
  }

  lemma DecodeVector32()
    ensures Decode([0x61, 0x62, 0x63, 0x64]) == 0x61626364
    ensures Decode([0x65, 0x66, 0x67, 0x68]) == 0x65666768
  {
    assert Encode(0x61626364, 4) == [0x61, 0x62, 0x63, 0x64];
    DecodeEncode(0x61626364, 4);
    assert Encode(0x65666768, 4) == [0x65, 0x66, 0x67, 0x68];
    DecodeEncode(0x65666768, 4);
  }

  lemma Vector16()
    ensures Encode(ToUnsigned(-0x1122, 2), 2) == [0xee, 0xde]
  {
  }

  lemma SignedDecodeVector16()
    ensures FromUnsigned(Decode([0xff, 0x62]), 2) == -158
  {
  }

  lemma Vector8()
    ensures Encode(ToUnsigned(-0x11, 1), 1) == [0xef]
  {
  }

  lemma SignedDecodeVector8()
    ensures FromUnsigned(Decode([0xff]), 1) == -1
  {
  }
}
