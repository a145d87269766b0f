/**
 * What the C library primitives used by the buffer do to a byte region,
 * stated on sequences: a memcpy-style store, the overlap-safe memmove that
 * compacts the live region, the strncpy window and the window that a
 * size-bounded, NUL-terminating formatter fills.
 */
module Region {
  import opened BigEndian

  function Min(a: nat, b: nat): (m: nat)
    ensures m <= a && m <= b && (m == a || m == b)
  {
    if a <= b then a else b
  }

  /** `s` with `src` stored at offset `at`, every byte outside that range kept. */
  function Overwrite(s: seq<Byte>, at: nat, src: seq<Byte>): (r: seq<Byte>)
    requires at + |src| <= |s|
    ensures |r| == |s|
    ensures forall i :: at <= i < at + |src| ==> r[i] == src[i - at]
    ensures forall i :: 0 <= i < |s| && !(at <= i < at + |src|) ==> r[i] == s[i]
  {
    s[..at] + src + s[at + |src|..]
  }

  /** A store directly behind a prefix extends that prefix by the stored bytes. */
  lemma OverwriteExtends(s: seq<Byte>, at: nat, src: seq<Byte>)
    requires at + |src| <= |s|
    ensures Overwrite(s, at, src)[..at + |src|] == s[..at] + src
  {
    var r := Overwrite(s, at, src);
    assert forall i :: 0 <= i < at + |src| ==> r[..at + |src|][i] == (s[..at] + src)[i];
  }

  /**
   * The region after moving its bytes [off, end) down to index 0: the first
   * end - off bytes are the moved ones, every byte from end - off on is kept.
   */
  function Compact(s: seq<Byte>, off: nat, end: nat): (r: seq<Byte>)
    requires off <= end <= |s|
    ensures |r| == |s|
    ensures forall i :: 0 <= i < end - off ==> r[i] == s[i + off]
    ensures forall i :: end - off <= i < |s| ==> r[i] == s[i]
  {
    s[off..end] + s[end - off..]
  }

  /** Compacting drops the first off live bytes and keeps the rest in order. */
  lemma CompactLive(s: seq<Byte>, off: nat, end: nat)
    requires off <= end <= |s|
    ensures Compact(s, off, end)[..end - off] == s[..end][off..]
  {
    var r := Compact(s, off, end);
    assert forall i :: 0 <= i < end - off ==> r[..end - off][i] == s[..end][off..][i];
  }

  /** Compacting by zero leaves the region as it was. */
  lemma CompactByZero(s: seq<Byte>, end: nat)
    requires end <= |s|
    ensures Compact(s, 0, end) == s
  {
    var r := Compact(s, 0, end);
    assert forall i :: 0 <= i < |s| ==> r[i] == s[i];
  }

  /**
   * The length of the C string at the start of `s`, looking at no more than
   * n bytes (strnlen). The string is read only up to its terminator or n.
   */
  function Strnlen(s: seq<Byte>, n: nat): (k: nat)
    requires n <= |s| || 0 in s
    ensures k <= n && k <= |s|
    ensures forall i :: 0 <= i < k ==> s[i] != 0
    ensures k < n ==> k < |s| && s[k] == 0
  {
    if n == 0 || s[0] == 0 then 0
    else
      assert n - 1 <= |s[1..]| || 0 in s[1..] by {
        if 0 in s {
          var j :| 0 <= j < |s| && s[j] == 0;
          assert s[1..][j - 1] == 0;
        }
      }
      1 + Strnlen(s[1..], n - 1)
  }

  /** A zero-filled byte string of length n. */
  function Zeros(n: nat): (r: seq<Byte>)
    ensures |r| == n && forall i :: 0 <= i < n ==> r[i] == 0
  {
    seq(n, _ => 0)
  }

  /**
   * The n bytes strncpy stores (section 7.24.2.4 of ISO/IEC 9899:2011): the
   * source string up to its terminator or n bytes, whichever comes first, and
   * NUL padding up to n when the string is shorter.
   */
  function StrncpyWindow(src: seq<Byte>, n: nat): (r: seq<Byte>)
    requires n <= |src| || 0 in src
    ensures |r| == n
    ensures r[..Strnlen(src, n)] == src[..Strnlen(src, n)]
    ensures forall i :: Strnlen(src, n) <= i < n ==> r[i] == 0
  {
    var k := Strnlen(src, n);
    src[..k] + Zeros(n - k)
  }

  /** With no terminator in the first n bytes, strncpy copies like memcpy. */
  lemma StrncpyWithoutNul(src: seq<Byte>, n: nat)
    requires n <= |src| && 0 !in src[..n]
    ensures StrncpyWindow(src, n) == src[..n]
  {
    var k := Strnlen(src, n);
    assert k == n by {
      if k < n {
        assert false;
      }
    }
  }

  /** A string shorter than n leaves its terminator and zero padding in the window. */
  lemma StrncpyShort(src: seq<Byte>, n: nat, k: nat)
    requires k < n && k < |src| && src[k] == 0 && 0 !in src[..k]
    ensures StrncpyWindow(src, n) == src[..k] + Zeros(n - k)
  {
    var j := Strnlen(src, n);
    assert j == k by {
      if j < k {
        assert false;
      }
    }
  }

  /**
   * The bytes a size-bounded, NUL-terminating formatter (vsnprintf, section
   * 7.21.6.12 of ISO/IEC 9899:2011) stores for the unbounded output `text`
   * when it is given `room` bytes: nothing when room is 0, otherwise as much
   * of the text as fits before a terminating NUL.
   */
  function BoundedFormat(text: seq<Byte>, room: nat): (r: seq<Byte>)
    ensures |r| <= room
    ensures room == 0 ==> r == []
    ensures room > 0 ==> |r| == Min(|text|, room - 1) + 1
    ensures room > 0 ==> r[..|r| - 1] == text[..|r| - 1] && r[|r| - 1] == 0
  {
    if room == 0 then [] else text[..Min(|text|, room - 1)] + [0]
  }

  /** The formatted text is stored whole exactly when it is shorter than the room. */
  lemma BoundedFormatWhole(text: seq<Byte>, room: nat)
    ensures |text| < room <==> |BoundedFormat(text, room)| == |text| + 1
  {
  }

  /** The bytes of the strncpy example: "ab" into a 4-byte window. */
  lemma StrncpyVector()
    ensures StrncpyWindow(['a' as int, 'b' as int, 0], 4) == ['a' as int, 'b' as int, 0, 0]
  {
    StrncpyShort(['a' as int, 'b' as int, 0], 4, 2);
  }
}
