/**
 * Clients of the two cursors: the laws that relate a write to a later read
 * and a run of writes to the space left, and the concrete runs of the
 * buffer's unit tests replayed against the verified operations.
 */
module Scenarios {
  import opened BigEndian
  import opened Region
  import opened Buffers

  /** A region of `n` zero bytes, as the tests prepare with memset. */
  method Zeroed(n: nat) returns (a: array<Byte>)
    ensures fresh(a) && a.Length == n && forall i :: 0 <= i < n ==> a[i] == 0
  {
    a := new Byte[n](_ => 0);
  }

  /**
   * A value written with a fixed-width writer and read back with the reader
   * of the same width comes back unchanged. The buffer is any state with
   * room for the value: any prior bytes in the region, any size, any write
   * offset; the read cursor views the same region at that offset. One
   * method per width.
   */
  method WriteReadU8(prior: seq<Byte>, size: nat, at: nat, v: U8) returns (r: U8)
    requires size <= |prior| && at + 1 <= size
    ensures r == v
  {
    var region := new Byte[|prior|](i => if 0 <= i < |prior| then prior[i] else 0);
    var b := new Buffer.Over(region, size, at);
    b.WriteU8(v);
    assert region[at] == v;
    var c := new ConstBuffer(region, size, at);
    r := c.ReadU8();
    DecodeEncode(v, 1);
  }

  method WriteReadU16(prior: seq<Byte>, size: nat, at: nat, v: U16) returns (r: U16)
    requires size <= |prior| && at + 2 <= size
    ensures r == v
  {
    assert Pow256(2) == 0x1_0000;
    var region := new Byte[|prior|](i => if 0 <= i < |prior| then prior[i] else 0);
    var b := new Buffer.Over(region, size, at);
    b.WriteU16(v);
    assert region[at..at + 2] == Encode(v, 2);
    var c := new ConstBuffer(region, size, at);
    r := c.ReadU16();
    DecodeEncode(v, 2);
  }

  method WriteReadU32(prior: seq<Byte>, size: nat, at: nat, v: U32) returns (r: U32)
    requires size <= |prior| && at + 4 <= size
    ensures r == v
  {
    assert Pow256(4) == 0x1_0000_0000;
    var region := new Byte[|prior|](i => if 0 <= i < |prior| then prior[i] else 0);
    var b := new Buffer.Over(region, size, at);
    b.WriteU32(v);
    assert region[at..at + 4] == Encode(v, 4);
    var c := new ConstBuffer(region, size, at);
    r := c.ReadU32();
    DecodeEncode(v, 4);
  }

  method WriteReadU64(prior: seq<Byte>, size: nat, at: nat, v: U64) returns (r: U64)
    requires size <= |prior| && at + 8 <= size
    ensures r == v
  {
    assert Pow256(8) == 0x1_0000_0000_0000_0000;
    var region := new Byte[|prior|](i => if 0 <= i < |prior| then prior[i] else 0);
    var b := new Buffer.Over(region, size, at);
    b.WriteU64(v);
    assert region[at..at + 8] == Encode(v, 8);
    var c := new ConstBuffer(region, size, at);
    r := c.ReadU64();
    DecodeEncode(v, 8);
  }

  method WriteReadS8(prior: seq<Byte>, size: nat, at: nat, v: I8) returns (r: I8)
    requires size <= |prior| && at + 1 <= size
    ensures r == v
  {
    assert SignedFits(v, 1);
    var region := new Byte[|prior|](i => if 0 <= i < |prior| then prior[i] else 0);
    var b := new Buffer.Over(region, size, at);
    b.WriteS8(v);
    assert region[at] == ToUnsigned(v, 1);
    var c := new ConstBuffer(region, size, at);
    r := c.ReadS8();
    SignedRoundTrip(v, 1);
  }

  method WriteReadS16(prior: seq<Byte>, size: nat, at: nat, v: I16) returns (r: I16)
    requires size <= |prior| && at + 2 <= size
    ensures r == v
  {
    assert SignedFits(v, 2);
    var region := new Byte[|prior|](i => if 0 <= i < |prior| then prior[i] else 0);
    var b := new Buffer.Over(region, size, at);
    b.WriteS16(v);
    assert region[at..at + 2] == Encode(ToUnsigned(v, 2), 2);
    var c := new ConstBuffer(region, size, at);
    r := c.ReadS16();
    DecodeSignedEncodeSigned(v, 2);
  }

  method WriteReadS32(prior: seq<Byte>, size: nat, at: nat, v: I32) returns (r: I32)
    requires size <= |prior| && at + 4 <= size
    ensures r == v
  {
    assert SignedFits(v, 4);
    var region := new Byte[|prior|](i => if 0 <= i < |prior| then prior[i] else 0);
    var b := new Buffer.Over(region, size, at);
    b.WriteS32(v);
    assert region[at..at + 4] == Encode(ToUnsigned(v, 4), 4);
    var c := new ConstBuffer(region, size, at);
    r := c.ReadS32();
    DecodeSignedEncodeSigned(v, 4);
  }

  method WriteReadS64(prior: seq<Byte>, size: nat, at: nat, v: I64) returns (r: I64)
    requires size <= |prior| && at + 8 <= size
    ensures r == v
  {
    assert SignedFits(v, 8);
    var region := new Byte[|prior|](i => if 0 <= i < |prior| then prior[i] else 0);
    var b := new Buffer.Over(region, size, at);
    b.WriteS64(v);
    assert region[at..at + 8] == Encode(ToUnsigned(v, 8), 8);
    var c := new ConstBuffer(region, size, at);
    r := c.ReadS64();
    DecodeSignedEncodeSigned(v, 8);
  }

  /** The chunks laid end to end. */
  function Concat(chunks: seq<seq<Byte>>): (r: seq<Byte>)
  {
    if chunks == [] then [] else Concat(chunks[..|chunks| - 1]) + chunks[|chunks| - 1]
  }

  /** The first i chunks never take up more room than all of them. */
  lemma {:induction false} ConcatPrefixShorter(chunks: seq<seq<Byte>>, i: nat)
    requires i <= |chunks|
    ensures |Concat(chunks[..i])| <= |Concat(chunks)|
  {
    if i < |chunks| {
      var m := |chunks| - 1;
      assert chunks[..m][..i] == chunks[..i];
      ConcatPrefixShorter(chunks[..m], i);
      assert Concat(chunks) == Concat(chunks[..m]) + chunks[m];
    } else {
      assert chunks[..i] == chunks;
    }
  }

  /**
   * Bulk writes whose total length fits the capacity all succeed: the
   * written bytes are the chunks in order, and the space left is the
   * capacity less their total length.
   */
  method AppendAll(capacity: nat, chunks: seq<seq<Byte>>) returns (contents: seq<Byte>, available: nat)
    requires |Concat(chunks)| <= capacity
    ensures contents == Concat(chunks)
    ensures available == capacity - |Concat(chunks)|
  {
    var b := new Buffer.AllocData(capacity);
    var region := b.data;
    var i := 0;
    while i < |chunks|
      invariant 0 <= i <= |chunks|
      invariant b.data == region && b.Valid() && b.size == capacity
      invariant b.written == |Concat(chunks[..i])| && b.written <= b.size
      invariant b.data[..b.written] == Concat(chunks[..i])
    {
      ConcatPrefixShorter(chunks, i + 1);
      assert chunks[..i + 1][..i] == chunks[..i];
      assert chunks[i][..|chunks[i]|] == chunks[i];
      b.Write(chunks[i], |chunks[i]|);
      i := i + 1;
    }
    assert chunks[..i] == chunks;
    contents := b.data[..b.written];
    available := b.WriteAvailable();
  }

  /** test_Buffer_WriteU64: a 9-byte buffer takes one 64-bit value, not two. */
  method TestWriteU64() {
    var region := Zeroed(9);
    var b := new Buffer.Over(region, 9, 0);
    Vector64();
    b.WriteU64(0x1122334455667788);
    assert b.data[..8] == [0x11, 0x22, 0x33, 0x44, 0x55, 0x66, 0x77, 0x88];
    assert b.data[8] == 0 && b.WriteAvailable() == 1;
    b.WriteU64(0xFFFF_FFFF_FFFF_FFFF);
    assert b.data[7] == 0x88 && b.data[8] == 0 && b.WriteAvailable() == 1;
  }

  /** test_Buffer_WriteU8: a size of 2 over a 3-byte region never touches the third byte. */
  method TestWriteU8() {
    var region := Zeroed(3);
    var b := new Buffer.Over(region, 2, 0);
    b.WriteU8(0x11);
    assert region[0] == 0x11 && region[1] == 0 && b.WriteAvailable() == 1;
    b.WriteU8(0x22);
    assert region[..] == [0x11, 0x22, 0] && b.WriteAvailable() == 0;
    b.WriteU8(0xff);
    assert region[..] == [0x11, 0x22, 0] && b.WriteAvailable() == 0;
  }

  /** test_Buffer_WriteS32: a negative value is stored as its two's-complement bytes. */
  method TestWriteS32() {
    var region := Zeroed(5);
    var b := new Buffer.Over(region, 5, 0);
    Vector32();
    b.WriteS32(-0x11223344);
    assert region[..4] == [0xee, 0xdd, 0xcc, 0xbc];
    assert region[4] == 0 && b.WriteAvailable() == 1;
    b.WriteS32(-1);
    assert region[3] == 0xbc && region[4] == 0 && b.WriteAvailable() == 1;
  }

  /** test_Buffer_WriteStr: "ab" into a 4-byte window is NUL padded; the fifth byte stays 5. */
  method TestWriteStr() {
    var region := new Byte[5](i => i + 1);
    var b := new Buffer.Over(region, 5, 0);
    var ab := ['a' as int, 'b' as int, 0];
    StrncpyVector();
    b.WriteStr(ab, 4);
    assert region[..] == ['a' as int, 'b' as int, 0, 0, 5];
    assert b.WriteAvailable() == 1;
    b.WriteStr(['c' as int, 'd' as int, 0], 4);
    assert region[..] == ['a' as int, 'b' as int, 0, 0, 5];
    assert b.WriteAvailable() == 1;
  }

  /** test_Buffer_Write: two 2-byte copies fit a 5-byte buffer, a third does not. */
  method TestWrite() {
    var region := Zeroed(5);
    var b := new Buffer.Over(region, 5, 0);
    b.Write([0xbb, 0x44], 2);
    assert region[..3] == [0xbb, 0x44, 0] && b.WriteAvailable() == 3;
    b.Write([0xdd, 0x22], 2);
    assert region[..] == [0xbb, 0x44, 0xdd, 0x22, 0] && b.WriteAvailable() == 1;
    b.Write([0xbb, 0x44], 2);
    assert region[4] == 0 && b.WriteAvailable() == 1;
  }

  /** test_Buffer_Clear: clearing resets `written` and keeps the size. */
  method TestClear() {
    var region := new Byte[2];
    var b := new Buffer.Over(region, 2, 0);
    b.WriteU8(0xAA);
    assert b.written == 1 && b.size == 2;
    b.Clear();
    assert b.written == 0 && b.size == 2 && region[0] == 0xAA;
  }

  /** test_Buffer_MoveBy: dropping 3 of "abcdefgh" leaves "defgh" in the same region. */
  method TestMoveBy() {
    var text := ['a' as int, 'b' as int, 'c' as int, 'd' as int, 'e' as int, 'f' as int, 'g' as int, 'h' as int];
    var region := new Byte[16](i => if i < 8 then text[i] else 0);
    var b := new Buffer.Over(region, 16, 8);
    assert b.Contents() == text;
    b.MoveBy(3);
    assert b.written == 5 && b.size == 16 && b.data == region;
    assert b.Contents() == text[3..];
  }
  /**
   * The state test_Buffer_Format ends in, written 12 past a size of 10 in a
   * 16-byte region: moving by 3 still shifts the 12 written bytes down.
   */
  method TestMoveByPastSize() {
    var text := ['a' as int, 'b' as int, 'c' as int, 'd' as int, 'e' as int, 'f' as int,
                 'g' as int, 'h' as int, 'i' as int, 'j' as int, 'k' as int, 'l' as int];
    var region := new Byte[16](i => if 0 <= i < |text| then text[i] else 0);
    var b := new Buffer.Over(region, 10, 12);
    assert region[..12] == text;
    b.MoveBy(3);
    assert b.written == 9 && region[..9] == text[3..];
  }


  /** test_Buffer_ReadU32: "abcdefgh" and its NUL give two 32-bit values, then the 0 sentinel. */
  method TestReadU32() {
    var text := ['a' as int, 'b' as int, 'c' as int, 'd' as int, 'e' as int, 'f' as int, 'g' as int, 'h' as int, 0];
    var region := new Byte[9](i => if 0 <= i < |text| then text[i] else 0);
    var c := new ConstBuffer(region, 9, 0);
    assert region[0..4] == [0x61, 0x62, 0x63, 0x64];
    assert region[4..8] == [0x65, 0x66, 0x67, 0x68];
    DecodeVector32();
    var v := c.ReadU32();
    assert v == 0x61626364 && c.ReadAvailable() == 5;
    v := c.ReadU32();
    assert v == 0x65666768 && c.ReadAvailable() == 1;
    v := c.ReadU32();
    assert v == 0 && c.ReadAvailable() == 1;
  }

  /** test_Buffer_ReadS16: 0xff 'b' is -158. */
  method TestReadS16() {
    var text := [0xff, 'b' as int, 'c' as int, 'd' as int, 0];
    var region := new Byte[5](i => if 0 <= i < |text| then text[i] else 0);
    var c := new ConstBuffer(region, 5, 0);
    assert region[..] == text;
    assert region[0..2] == [0xff, 0x62] && region[2..4] == [0x63, 0x64];
    assert Pow256(2) == 0x1_0000;
    SignedDecodeVector16();
    assert Encode(0x6364, 2) == [0x63, 0x64];
    DecodeEncode(0x6364, 2);
    var v := c.ReadS16();
    assert v == -158 && c.ReadAvailable() == 3;
    v := c.ReadS16();
    assert v == 0x6364 && c.ReadAvailable() == 1;
    v := c.ReadS16();
    assert v == 0 && c.ReadAvailable() == 1;
  }

  /**
   * A read cursor set up with `read` beyond its size has nothing available:
   * every read fails and the cursor stays where it is.
   */
  method TestReadPastSize() {
    var region := Zeroed(8);
    var c := new ConstBuffer(region, 5, 6);
    assert c.ReadAvailable() == 0;
    var v := c.ReadU8();
    assert v == 0 && c.read == 6;
    var dest := new Byte[1];
    var ok := c.Read(dest, 1);
    assert !ok && c.read == 6;
  }

  /** test_Buffer_Read: four of five bytes can be taken once, not twice. */
  method TestRead() {
    var text := ['a' as int, 'b' as int, 'c' as int, 'd' as int, 0];
    var region := new Byte[5](i => if 0 <= i < |text| then text[i] else 0);
    var c := new ConstBuffer(region, 5, 0);
    var dest := new Byte[4];
    var ok := c.Read(dest, 4);
    assert ok && dest[..] == dest[..4] == region[0..4];
    assert dest[..] == text[..4] && c.ReadAvailable() == 1;
    ok := c.Read(dest, 4);
    assert !ok && dest[..] == text[..4] && c.ReadAvailable() == 1;
  }

  /**
   * test_Buffer_Format, first part: two 4-character outputs into a size of
   * 10 are stored whole, each followed by its NUL.
   */
  method TestFormat() {
    var region := Zeroed(16);
    var b := new Buffer.Over(region, 10, 0);
    var first := ['1' as int, '2' as int, '3' as int, '4' as int];
    var second := ['5' as int, '6' as int, '7' as int, '8' as int];
    var r := b.Format(first);
    assert r == 4 && region[..4] == first;
    ghost var kept := region[..4];
    r := b.Format(second);
    assert BoundedFormat(second, 6) == second + [0];
    assert r == 4 && region[..4] == kept && region[4..8] == second && region[8] == 0;
    assert b.written == 8 && b.WriteAvailable() == 2;
  }

  /**
   * test_Buffer_Format, second part: with 2 bytes of room the third output
   * is cut to one character and its NUL, yet `written` advances by 4 to 12.
   */
  method TestFormatTruncated() {
    var region := Zeroed(16);
    var b := new Buffer.Over(region, 10, 8);
    var third := ['9' as int, '0' as int, '1' as int, '2' as int];
    var r := b.Format(third);
    assert BoundedFormat(third, 2) == ['9' as int, 0];
    assert r == 4 && region[8] == '9' as int && region[9] == 0;
    assert region[10] == 0 && region[11] == 0;
    assert b.written == 12 && b.size == 10 && b.WriteAvailable() == 0;
  }

  /**
   * The state test_Buffer_Format ends in, written 12 past a size of 10: a
   * further format stores nothing, and `written` still grows.
   */
  method TestFormatOverrun() {
    var region := Zeroed(16);
    var b := new Buffer.Over(region, 10, 12);
    var r := b.Format(['3' as int, '4' as int]);
    assert r == 2 && b.written == 14 && region[..] == Zeros(16);
  }
}
