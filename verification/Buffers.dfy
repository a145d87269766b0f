/**
 * The write cursor `Buffer` and the read cursor `ConstBuffer`.
 *
 * Every fixed-width and bulk write checks `written + width > size` first and
 * is a silent no-op when it holds; otherwise it stores the bytes at `written`
 * and advances `written` by the width. Every fixed-width read checks
 * `read + width > size` first and returns 0 without advancing when it holds;
 * `Read` reports the same condition as `false`.
 */
module Buffers {
  import opened BigEndian
  import opened Region

  /** The write cursor: a byte region, its logical size and the append offset. */
  class Buffer {
    var data: array<Byte>
    var size: nat
    var written: nat

    /** The logical size never exceeds the region. `written` may exceed `size` (after `Format`). */
    ghost predicate Valid()
      reads this
    {
      size <= data.Length
    }

    /** The bytes written so far. */
    ghost function Contents(): (r: seq<Byte>)
      reads this, data
      requires Valid() && written <= size
      ensures |r| == written
    {
      data[..written]
    }

    /** A fresh region of `size` bytes with nothing written. */
    constructor AllocData(size: nat)
      ensures Valid() && fresh(data)
      ensures data.Length == size && this.size == size && written == 0
    {
      data := new Byte[size];
      this.size := size;
      written := 0;
    }

    /** A cursor over an existing region whose first `size` bytes it may use. */
    constructor Over(region: array<Byte>, size: nat, written: nat)
      requires size <= region.Length
      ensures Valid() && data == region
      ensures this.size == size && this.written == written
    {
      data := region;
      this.size := size;
      this.written := written;
    }

    /** Releasing the region: the size drops to 0, `written` is left as it was. */
    method FreeData()
      modifies this`size
      ensures size == 0 && written == old(written)
    {
      size := 0;
    }

    /** The guard of every write: n more bytes fit behind `written`. */
    predicate CanWrite(n: nat)
      reads this
    {
      written + n <= size
    }

    /**
     * The number of bytes left. While `written <= size` a write of n bytes
     * succeeds exactly when n is at most this number; once `written` has
     * passed `size` it is 0 and no write at all succeeds.
     */
    function WriteAvailable(): (r: nat)
      reads this
      ensures written <= size ==> forall n: nat :: CanWrite(n) <==> n <= r
      ensures written > size ==> r == 0 && forall n: nat :: !CanWrite(n)
    {
      if size >= written then size - written else 0
    }

    /** Stores `bytes` at offset `at`, one byte at a time. */
    method Store(at: nat, bytes: seq<Byte>)
      requires at + |bytes| <= data.Length
      modifies data
      ensures data[..] == Overwrite(old(data[..]), at, bytes)
    {
      var i := 0;
      while i < |bytes|
        invariant 0 <= i <= |bytes|
        invariant data[..] == Overwrite(old(data[..]), at, bytes[..i])
      {
        data[at + i] := bytes[i];
        i := i + 1;
      }
      assert bytes[..i] == bytes;
    }

    /** Appends the first n bytes of `src` verbatim (memcpy), or does nothing if they do not fit. */
    method Write(src: seq<Byte>, n: nat)
      requires Valid() && n <= |src|
      modifies this`written, data
      ensures data == old(data) && size == old(size)
      ensures old(CanWrite(n)) ==> written == old(written) + n
      ensures old(CanWrite(n)) ==> data[..] == Overwrite(old(data[..]), old(written), src[..n])
      ensures old(CanWrite(n)) ==> Contents() == old(Contents()) + src[..n]
      ensures !old(CanWrite(n)) ==> written == old(written) && data[..] == old(data[..])
    {
      if written + n > size {
        return;
      }
      Store(written, src[..n]);
      OverwriteExtends(old(data[..]), written, src[..n]);
      written := written + n;
    }

    /**
     * Appends the n-byte strncpy window of the C string `src`: the string up
     * to its terminator or n bytes, then NUL padding to n bytes. The source
     * is read only up to its terminator, so it must hold n bytes or a NUL.
     */
    method WriteStr(src: seq<Byte>, n: nat)
      requires Valid() && (n <= |src| || 0 in src)
      modifies this`written, data
      ensures data == old(data) && size == old(size)
      ensures old(CanWrite(n)) ==> written == old(written) + n
      ensures old(CanWrite(n)) ==> data[..] == Overwrite(old(data[..]), old(written), StrncpyWindow(src, n))
      ensures !old(CanWrite(n)) ==> written == old(written) && data[..] == old(data[..])
    {
      if written + n > size {
        return;
      }
      Store(written, StrncpyWindow(src, n));
      written := written + n;
    }

    method WriteU8(v: U8)
      requires Valid()
      modifies this`written, data
      ensures data == old(data) && size == old(size)
      ensures old(CanWrite(1)) ==> written == old(written) + 1 && data[..] == old(data[..])[old(written) := v]
      ensures !old(CanWrite(1)) ==> written == old(written) && data[..] == old(data[..])
    {
      if written + 1 > size {
        return;
      }
      data[written] := v;
      written := written + 1;
    }

    method WriteU16(v: U16)
      requires Valid()
      modifies this`written, data
      ensures data == old(data) && size == old(size)
      ensures old(CanWrite(2)) ==> written == old(written) + 2
      ensures old(CanWrite(2)) ==> data[..] == Overwrite(old(data[..]), old(written), Encode(v, 2))
      ensures !old(CanWrite(2)) ==> written == old(written) && data[..] == old(data[..])
    {
      var bytes := Encode(v, 2);
      assert bytes[..2] == bytes;
      Write(bytes, 2);
    }

    method WriteU32(v: U32)
      requires Valid()
      modifies this`written, data
      ensures data == old(data) && size == old(size)
      ensures old(CanWrite(4)) ==> written == old(written) + 4
      ensures old(CanWrite(4)) ==> data[..] == Overwrite(old(data[..]), old(written), Encode(v, 4))
      ensures !old(CanWrite(4)) ==> written == old(written) && data[..] == old(data[..])
    {
      var bytes := Encode(v, 4);
      assert bytes[..4] == bytes;
      Write(bytes, 4);
    }

    method WriteU64(v: U64)
      requires Valid()
      modifies this`written, data
      ensures data == old(data) && size == old(size)
      ensures old(CanWrite(8)) ==> written == old(written) + 8
      ensures old(CanWrite(8)) ==> data[..] == Overwrite(old(data[..]), old(written), Encode(v, 8))
      ensures !old(CanWrite(8)) ==> written == old(written) && data[..] == old(data[..])
    {
      var bytes := Encode(v, 8);
      assert bytes[..8] == bytes;
      Write(bytes, 8);
    }

    method WriteS8(v: I8)
      requires Valid()
      modifies this`written, data
      ensures data == old(data) && size == old(size)
      ensures old(CanWrite(1)) ==> written == old(written) + 1
      ensures old(CanWrite(1)) ==> data[..] == old(data[..])[old(written) := ToUnsigned(v, 1)]
      ensures !old(CanWrite(1)) ==> written == old(written) && data[..] == old(data[..])
    {
      if written + 1 > size {
        return;
      }
      data[written] := ToUnsigned(v, 1);
      written := written + 1;
    }

    method WriteS16(v: I16)
      requires Valid()
      modifies this`written, data
      ensures data == old(data) && size == old(size)
      ensures old(CanWrite(2)) ==> written == old(written) + 2
      ensures old(CanWrite(2)) ==> data[..] == Overwrite(old(data[..]), old(written), Encode(ToUnsigned(v, 2), 2))
      ensures !old(CanWrite(2)) ==> written == old(written) && data[..] == old(data[..])
    {
      var bytes := Encode(ToUnsigned(v, 2), 2);
      assert bytes[..2] == bytes;
      Write(bytes, 2);
    }

    method WriteS32(v: I32)
      requires Valid()
      modifies this`written, data
      ensures data == old(data) && size == old(size)
      ensures old(CanWrite(4)) ==> written == old(written) + 4
      ensures old(CanWrite(4)) ==> data[..] == Overwrite(old(data[..]), old(written), Encode(ToUnsigned(v, 4), 4))
      ensures !old(CanWrite(4)) ==> written == old(written) && data[..] == old(data[..])
    {
      var bytes := Encode(ToUnsigned(v, 4), 4);
      assert bytes[..4] == bytes;
      Write(bytes, 4);
    }

    method WriteS64(v: I64)
      requires Valid()
      modifies this`written, data
      ensures data == old(data) && size == old(size)
      ensures old(CanWrite(8)) ==> written == old(written) + 8
      ensures old(CanWrite(8)) ==> data[..] == Overwrite(old(data[..]), old(written), Encode(ToUnsigned(v, 8), 8))
      ensures !old(CanWrite(8)) ==> written == old(written) && data[..] == old(data[..])
    {
      var bytes := Encode(ToUnsigned(v, 8), 8);
      assert bytes[..8] == bytes;
      Write(bytes, 8);
    }

    /** Forgets what was written; the region, its size and its bytes stay as they are. */
    method Clear()
      modifies this`written
      ensures written == 0
      ensures data == old(data) && size == old(size) && data[..] == old(data[..])
    {
      written := 0;
    }

    /**
     * Drops the first `offset` written bytes (all of them when `offset`
     * exceeds `written`) by moving the rest to the front of the same region.
     * `written` may lie past `size` (after a truncated `Format`, after
     * `FreeData`, or as set up), as long as it stays inside the region.
     */
    method MoveBy(offset: nat)
      requires Valid() && written <= data.Length
      modifies this`written, data
      ensures data == old(data) && size == old(size)
      ensures written == old(written) - Min(offset, old(written))
      ensures data[..] == Compact(old(data[..]), Min(offset, old(written)), old(written))
      ensures data[..written] == old(data[..written])[Min(offset, old(written))..]
      ensures old(written) <= size ==> Contents() == old(Contents())[Min(offset, old(written))..]
    {
      var off := offset;
      if off > written {
        off := written;
      }
      ghost var before := data[..];
      var live := written - off;
      var i := 0;
      while i < live
        modifies data
        invariant 0 <= i <= live
        invariant forall k :: 0 <= k < i ==> data[k] == before[k + off]
        invariant forall k :: i <= k < data.Length ==> data[k] == before[k]
      {
        data[i] := data[i + off];
        i := i + 1;
      }
      ghost var moved := Compact(before, off, written);
      assert forall k :: 0 <= k < data.Length ==> data[..][k] == moved[k];
      assert data[..] == moved;
      CompactLive(before, off, written);
      assert data[..live] == moved[..live] == before[..written][off..];
      written := live;
    }

    /**
     * Appends formatted text. `text` is the complete output the formatter
     * produces for the format string and arguments; what is stored is the
     * part that fits the remaining room with its NUL, but `written` always
     * advances by the full length, which is also returned. The room is the
     * clamped `WriteAvailable()`, so once `written` has passed `size` nothing
     * is stored; no byte at or past `size` is ever touched.
     */
    method Format(text: seq<Byte>) returns (result: nat)
      requires Valid()
      modifies this`written, data
      ensures data == old(data) && size == old(size)
      ensures result == |text| && written == old(written) + |text|
      ensures old(written) <= size ==>
        data[..] == Overwrite(old(data[..]), old(written), BoundedFormat(text, size - old(written)))
      ensures old(written) > size ==> data[..] == old(data[..])
      ensures data[size..] == old(data[size..])
    {
      var window := BoundedFormat(text, WriteAvailable());
      if window != [] {
        Store(written, window);
      }
      written := written + |text|;
      result := |text|;
    }
  }

  /** The largest value of the source's 64-bit size_t. */
  const SizeMax: nat := 0xFFFF_FFFF_FFFF_FFFF

  /**
   * The bound the source hands to the formatter: `size - written` computed
   * in size_t, so it wraps modulo 2^64. Once `written` has passed `size` the
   * bound exceeds the whole region.
   */
  function FormatRoomAsWritten(size: nat, written: nat): (room: nat)
    requires size <= SizeMax && written <= SizeMax
    ensures written <= size ==> room == size - written
    ensures written > size ==> room > size
  {
    (size - written) % (SizeMax + 1)
  }

  /** After the third format of the unit test (written 12, size 10) the next bound is 2^64 - 2. */
  lemma FormatRoomOverrun()
    ensures FormatRoomAsWritten(10, 12) == 0xFFFF_FFFF_FFFF_FFFE
    ensures FormatRoomAsWritten(10, 12) > 10
  {
  }

  /** The read cursor: a borrowed, read-only view of `size` bytes and the consume offset. */
  class ConstBuffer {
    const data: array<Byte>
    const size: nat
    var read: nat

    ghost predicate Valid() {
      size <= data.Length
    }

    /**
     * A view over the first `size` bytes of `region` with its cursor at
     * `read`, as the struct initialiser sets the three fields.
     */
    constructor (region: array<Byte>, size: nat, read: nat)
      requires size <= region.Length
      ensures Valid() && data == region && this.size == size && this.read == read
    {
      data := region;
      this.size := size;
      this.read := read;
    }

    /** The guard of every read: n more bytes lie behind `read`. */
    predicate CanRead(n: nat)
      reads this
    {
      read + n <= size
    }

    /**
     * The number of bytes left. While `read <= size` a read of n bytes
     * succeeds exactly when n is at most this number; past `size` it is 0
     * and no read succeeds.
     */
    function ReadAvailable(): (r: nat)
      reads this
      ensures read <= size ==> forall n: nat :: CanRead(n) <==> n <= r
      ensures read > size ==> r == 0 && forall n: nat :: !CanRead(n)
    {
      if size >= read then size - read else 0
    }

    method ReadU8() returns (v: U8)
      requires Valid()
      modifies this`read
      ensures old(CanRead(1)) ==> v == data[old(read)] && read == old(read) + 1
      ensures !old(CanRead(1)) ==> v == 0 && read == old(read)
    {
      if read + 1 > size {
        return 0;
      }
      v := data[read];
      read := read + 1;
    }

    method ReadU16() returns (v: U16)
      requires Valid()
      modifies this`read
      ensures old(CanRead(2)) ==> v == Decode(data[old(read)..old(read) + 2]) && read == old(read) + 2
      ensures !old(CanRead(2)) ==> v == 0 && read == old(read)
    {
      if read + 2 > size {
        return 0;
      }
      v := Decode(data[read..read + 2]);
      read := read + 2;
    }

    method ReadU32() returns (v: U32)
      requires Valid()
      modifies this`read
      ensures old(CanRead(4)) ==> v == Decode(data[old(read)..old(read) + 4]) && read == old(read) + 4
      ensures !old(CanRead(4)) ==> v == 0 && read == old(read)
    {
      if read + 4 > size {
        return 0;
      }
      assert Pow256(4) == 0x1_0000_0000;
      v := Decode(data[read..read + 4]);
      read := read + 4;
    }

    method ReadU64() returns (v: U64)
      requires Valid()
      modifies this`read
      ensures old(CanRead(8)) ==> v == Decode(data[old(read)..old(read) + 8]) && read == old(read) + 8
      ensures !old(CanRead(8)) ==> v == 0 && read == old(read)
    {
      if read + 8 > size {
        return 0;
      }
      assert Pow256(8) == 0x1_0000_0000_0000_0000;
      v := Decode(data[read..read + 8]);
      read := read + 8;
    }

    method ReadS8() returns (v: I8)
      requires Valid()
      modifies this`read
      ensures old(CanRead(1)) ==> v == FromUnsigned(data[old(read)], 1) && read == old(read) + 1
      ensures !old(CanRead(1)) ==> v == 0 && read == old(read)
    {
      if read + 1 > size {
        return 0;
      }
      v := FromUnsigned(data[read], 1);
      read := read + 1;
    }

    method ReadS16() returns (v: I16)
      requires Valid()
      modifies this`read
      ensures old(CanRead(2)) ==> v == FromUnsigned(Decode(data[old(read)..old(read) + 2]), 2) && read == old(read) + 2
      ensures !old(CanRead(2)) ==> v == 0 && read == old(read)
    {
      if read + 2 > size {
        return 0;
      }
      v := FromUnsigned(Decode(data[read..read + 2]), 2);
      read := read + 2;
    }

    method ReadS32() returns (v: I32)
      requires Valid()
      modifies this`read
      ensures old(CanRead(4)) ==> v == FromUnsigned(Decode(data[old(read)..old(read) + 4]), 4) && read == old(read) + 4
      ensures !old(CanRead(4)) ==> v == 0 && read == old(read)
    {
      if read + 4 > size {
        return 0;
      }
      v := FromUnsigned(Decode(data[read..read + 4]), 4);
      read := read + 4;
    }

    method ReadS64() returns (v: I64)
      requires Valid()
      modifies this`read
      ensures old(CanRead(8)) ==> v == FromUnsigned(Decode(data[old(read)..old(read) + 8]), 8) && read == old(read) + 8
      ensures !old(CanRead(8)) ==> v == 0 && read == old(read)
    {
      if read + 8 > size {
        return 0;
      }
      v := FromUnsigned(Decode(data[read..read + 8]), 8);
      read := read + 8;
    }

    /**
     * Copies the next n bytes into `dest` (memcpy) and advances past them,
     * or, when fewer than n remain, copies nothing and returns false.
     */
    method Read(dest: array<Byte>, n: nat) returns (ok: bool)
      requires Valid() && n <= dest.Length && dest != data
      modifies this`read, dest
      ensures ok == old(CanRead(n))
      ensures ok ==> read == old(read) + n
      ensures ok ==> dest[..n] == data[old(read)..old(read) + n] && dest[n..] == old(dest[n..])
      ensures !ok ==> read == old(read) && dest[..] == old(dest[..])
    {
      if read + n > size {
        return false;
      }
      var i := 0;
      while i < n
        modifies dest
        invariant 0 <= i <= n
        invariant forall k :: 0 <= k < i ==> dest[k] == data[read + k]
        invariant forall k :: i <= k < dest.Length ==> dest[k] == old(dest[k])
      {
        dest[i] := data[read + i];
        i := i + 1;
      }
      read := read + n;
      return true;
    }
  }
}
