/** The growable byte buffer (ExpandingArray.h): a logical length kept apart
    from the allocated capacity, with operations that silently do nothing on
    arguments they reject. */
module Buffers {
  import opened Util

  /** The bytes of s after src is copied over them from offset i, the
      sequence growing if src runs past its end. */
  function Overwrite(s: seq<u8>, src: seq<u8>, i: nat): (r: seq<u8>)
    requires i <= |s|
    ensures |r| == if i + |src| > |s| then i + |src| else |s|
    ensures forall k :: 0 <= k < |r| ==> r[k] == if i <= k < i + |src| then src[k - i] else s[k]
  {
    if i + |src| >= |s| then s[..i] + src else s[..i] + src + s[i + |src|..]
  }

  /** When the first min(off + n, |before|) elements were kept by a resize
      to off + n elements, so were the first min(n, |before| - off) elements
      past offset off. */
  lemma PrefixKeptPastOffset(resized: seq<u8>, before: seq<u8>, off: nat, n: nat)
    requires |resized| == off + n && |before| >= off
    requires resized[..Min(off + n, |before|)] == before[..Min(off + n, |before|)]
    ensures resized[off..][..Min(n, |before| - off)] == before[off..][..Min(n, |before| - off)]
  {
    var m := Min(n, |before| - off);
    assert Min(off + n, |before|) == off + m;
    forall k | 0 <= k < m
      ensures resized[off..][k] == before[off..][k]
    {
      assert resized[off + k] == resized[..off + m][off + k];
      assert before[off + k] == before[..off + m][off + k];
    }
  }

  /** The length copyFromAt should grow to when copying len bytes at offset
      i runs past the current end: exactly i + len. */
  function GrowthIntended(i: nat, len: nat): nat
  {
    i + len
  }

  /** size_t is taken to be 64 bits wide. */
  const SIZE_T_MODULUS: nat := 0x1_0000_0000_0000_0000

  /** The length ExpandingArray.h:264 actually asks for,
      `_currentLength + (_currentLength - (i + len))`: the subtraction wraps in
      size_t and the sum is then truncated to IndexType (modulus indexLimit). */
  function GrowthAsWritten(length: nat, i: nat, len: nat, indexLimit: nat): nat
    requires indexLimit > 0
  {
    (length + (length - (i + len)) % SIZE_T_MODULUS) % SIZE_T_MODULUS % indexLimit
  }

  /** With a 16-bit index, growing a 4-byte buffer by a 4-byte copy at offset
      2 asks for length 2 instead of 6, so the copy writes past the logical
      end; a copy of 6 bytes at offset 3 asks for 65535 bytes instead of 9. */
  lemma GrowthAsWrittenIsWrong()
    ensures GrowthAsWritten(4, 2, 4, 0x1_0000) == 2 < GrowthIntended(2, 4)
    ensures GrowthAsWritten(4, 3, 6, 0x1_0000) == 0xFFFF != GrowthIntended(3, 6)
  {
  }

  class ExpandingArray {
    /** One more than the largest value of the IndexType parameter. */
    const indexLimit: nat
    /** The allocated storage; null before the first allocation. */
    var data: array?<u8>
    /** Number of live bytes at the front of data (`_currentLength`). */
    var length: nat

    /** length <= capacity, both representable in IndexType, and no live
        bytes without storage. */
    ghost predicate Valid()
      reads this
    {
      && length < indexLimit
      && if data == null then length == 0 else length <= data.Length < indexLimit
    }

    /** `_arrayLength`: the allocated storage, which holds the live bytes
        and is itself indexable by IndexType. */
    function Capacity(): (c: nat)
      reads this
      ensures Valid() ==> length <= c < indexLimit
    {
      if data == null then 0 else data.Length
    }

    /** The live prefix of the storage. */
    function Contents(): (s: seq<u8>)
      reads this, data
      requires Valid()
      ensures |s| == length
    {
      if data == null then [] else data[..length]
    }

    /** `length()`. */
    function Length(): (n: nat)
      reads this, data
      requires Valid()
      ensures n == |Contents()| && n < indexLimit
    {
      length
    }

    /** `_indexInRange(i)`: in a valid state exactly the live offsets, the
        null test being implied by a non-zero length. */
    predicate IndexInRange(i: nat): (b: bool)
      reads this
      ensures Valid() ==> (b <==> i < length)
    {
      data != null && i < length
    }

    /** Whether copyToAt(dst, len, i) copies anything. */
    predicate ReadsInRange(len: nat, i: nat)
      reads this
    {
      IndexInRange(i) && i + len <= length
    }

    /** Create with the given length (0 by default); its bytes are
        unspecified. */
    constructor (indexLimit: nat, len: nat := 0)
      requires len < indexLimit
      ensures Valid() && this.indexLimit == indexLimit
      ensures length == len && data != null && fresh(data)
    {
      this.indexLimit := indexLimit;
      data := null;
      length := 0;
      new;
      Resize(len, false);
    }

    /** Create from existing bytes. */
    constructor FromBytes(indexLimit: nat, src: seq<u8>)
      requires |src| < indexLimit
      ensures Valid() && this.indexLimit == indexLimit
      ensures Contents() == src && data != null && fresh(data)
    {
      this.indexLimit := indexLimit;
      data := null;
      length := 0;
      new;
      Resize(|src|, false);
      CopyFrom(src);
    }

    /** Deep copy of another array. */
    constructor Copy(a: ExpandingArray)
      requires a.Valid()
      ensures Valid() && indexLimit == a.indexLimit
      ensures Contents() == a.Contents() && data != null && fresh(data)
    {
      indexLimit := a.indexLimit;
      data := null;
      length := 0;
      new;
      Resize(a.length, false);
      CopyFrom(a.Contents());
    }

    /** Unchecked `operator[]` read. */
    function At(i: nat): (b: u8)
      reads this, data
      requires Valid() && i < length
      ensures b == Contents()[i]
    {
      data[i]
    }

    /** Unchecked `operator[]` write, within the live bytes. */
    method SetAt(i: nat, b: u8)
      requires Valid() && i < length
      modifies data
      ensures Valid() && Contents() == old(Contents())[i := b]
    {
      data[i] := b;
    }

    /** Make the capacity n without changing the length; a no-op when there
        is storage and n would not hold the live bytes. */
    method Allocate(n: nat, copy: bool := true)
      requires Valid() && n < indexLimit
      modifies this
      ensures Valid() && length == old(length)
      ensures old(data) != null && n <= old(length) ==> data == old(data)
      ensures !(old(data) != null && n <= old(length)) ==>
                fresh(data) && data.Length == n && (copy ==> Contents() == old(Contents()))
    {
      if n <= length && data != null {
        return;
      }
      var arr := new u8[n];
      if copy {
        CopyTo(arr, length);
      }
      data := arr;
    }

    /** Set the length to 0, keeping the storage; with zero every allocated
        byte becomes 0, otherwise the stored bytes are kept. */
    method Clear(zero: bool := false)
      requires Valid()
      modifies this, data
      ensures Valid() && length == 0 && data == old(data)
      ensures data != null && zero ==> forall k :: 0 <= k < data.Length ==> data[k] == 0
      ensures data != null && !zero ==> data[..] == old(data[..])
    {
      length := 0;
      if zero && data != null {
        Zero(data, data.Length);
      }
    }

    /** Shrink the capacity to the length, keeping the live bytes; a no-op
        when the capacity is already tight. */
    method Reclaim()
      requires Valid()
      modifies this
      ensures Valid() && Contents() == old(Contents())
      ensures old(Capacity()) > old(length) ==> fresh(data) && Capacity() == length
      ensures old(Capacity()) <= old(length) ==> data == old(data)
    {
      if Capacity() <= length {
        return;
      }
      var arr := new u8[length];
      CopyTo(arr, 0);
      data := arr;
    }

    /** copyFrom(src, len): copyFromAt at offset 0. */
    method CopyFrom(src: seq<u8>)
      requires Valid() && |src| < indexLimit
      modifies this, data
      ensures Valid() && (data == old(data) || fresh(data))
      ensures |src| > 0 && old(IndexInRange(0)) ==> Contents() == Overwrite(old(Contents()), src, 0)
      ensures !(|src| > 0 && old(IndexInRange(0))) ==>
                data == old(data) && length == old(length) && Contents() == old(Contents())
    {
      CopyFromAt(src, 0);
    }

    /** copyFromAt(src, len, i) with len == |src|: writes src over offsets
        [i, i + len), growing the length to i + len when needed; a no-op for
        an empty source or when i is not a live offset. */
    method CopyFromAt(src: seq<u8>, i: nat := 0)
      requires Valid() && i + |src| < indexLimit
      modifies this, data
      ensures Valid() && (data == old(data) || fresh(data))
      ensures |src| > 0 && old(IndexInRange(i)) ==> Contents() == Overwrite(old(Contents()), src, i)
      ensures !(|src| > 0 && old(IndexInRange(i))) ==>
                data == old(data) && length == old(length) && Contents() == old(Contents())
    {
      if |src| == 0 {
        return;
      }
      if !IndexInRange(i) {
        return;
      }
      ghost var before := Contents();
      if i + |src| > length {
        // ExpandingArray.h:264 computes the new length as GrowthAsWritten;
        // the intended length is the end of the copied range.
        Resize(GrowthIntended(i, |src|), true);
      }
      assert Contents()[..i] == before[..i];
      forall k | 0 <= k < |src| {
        data[i + k] := src[k];
      }
      assert Contents() == Overwrite(before, src, i);
    }

    /** copyTo(dst, len): copyToAt from offset 0, where len == 0 means the
        whole live prefix. */
    method CopyTo(dst: array<u8>, len: nat := 0)
      requires Valid() && dst != data
      requires ReadsInRange(if len > 0 then len else length, 0) ==>
                 (if len > 0 then len else length) <= dst.Length
      modifies dst
      ensures ReadsInRange(if len > 0 then len else length, 0) ==>
                dst[..if len > 0 then len else length] == Contents()[..if len > 0 then len else length]
      ensures ReadsInRange(if len > 0 then len else length, 0) ==>
                dst[if len > 0 then len else length..] == old(dst[if len > 0 then len else length..])
      ensures !ReadsInRange(if len > 0 then len else length, 0) ==> dst[..] == old(dst[..])
    {
      CopyToAt(dst, if len > 0 then len else length, 0);
    }

    /** copyToAt(dst, len, i): copies the live bytes [i, i + len) to the
        front of dst, or writes nothing when that range is not live. */
    method CopyToAt(dst: array<u8>, len: nat := 0, i: nat := 0)
      requires Valid() && dst != data
      requires ReadsInRange(len, i) ==> len <= dst.Length
      modifies dst
      ensures ReadsInRange(len, i) ==> dst[..len] == Contents()[i..i + len] && dst[len..] == old(dst[len..])
      ensures !ReadsInRange(len, i) ==> dst[..] == old(dst[..])
    {
      if len > length {
        return;
      }
      if !IndexInRange(i) {
        return;
      }
      if i + len > length {
        return;
      }
      forall k | 0 <= k < len {
        dst[k] := data[i + k];
      }
    }

    /** clear(true) followed by a resize within the storage makes n zero
        bytes live. */
    method ClearZeroThenResize(n: nat)
      requires Valid() && data != null && n < data.Length
      modifies this, data
      ensures Valid() && Contents() == seq(n, _ => 0)
    {
      Clear(true);
      Resize(n, false);
    }

    /** Set the length to n. Storage is kept when it already holds n bytes
        (strictly fewer than the capacity, or exactly the current length);
        otherwise capacity n is allocated, keeping the live bytes if copy. */
    method Resize(n: nat, copy: bool := true)
      requires Valid() && n < indexLimit
      modifies this
      ensures Valid() && length == n && data != null
      ensures old(data) != null && (n == old(length) || n < old(Capacity())) ==>
                data == old(data) && data[..] == old(data[..])
      ensures !(old(data) != null && (n == old(length) || n < old(Capacity()))) ==>
                fresh(data) && data.Length == n
      ensures n <= old(length) ==> Contents() == old(Contents())[..n]
      ensures copy ==> Contents()[..Min(n, old(length))] == old(Contents())[..Min(n, old(length))]
    {
      if n == length && data != null {
        return;
      } else if n < Capacity() {
        length := n;
        return;
      }
      Allocate(n, copy);
      length := n;
    }
  }
}
