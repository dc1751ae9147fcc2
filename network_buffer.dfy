/** NetworkBuffer.h: typed reads and writes of unsigned integers at fixed
    offsets of an ExpandingArray, in network (big-endian) byte order on a
    little-endian host. NetworkBuffer derives from ExpandingArray and adds no
    state, so its members are written here as methods taking the buffer. */
module NetworkBuffer {
  import opened Util
  import opened Buffers

  /** The new live bytes after writing the n-byte value v at offset:
      unchanged when copyFromAt rejects the offset. */
  ghost function AfterSet(before: seq<u8>, v: nat, n: nat, offset: nat): seq<u8>
  {
    if offset < |before| then Overwrite(before, ToBytesBE(v, n), offset) else before
  }

  /** setUInt8(bytes, len, offset): copyFromAt of len raw bytes. */
  method SetUInt8(b: ExpandingArray, bytes: seq<u8>, offset: nat)
    requires b.Valid() && offset + |bytes| < b.indexLimit
    modifies b, b.data
    ensures b.Valid() && (b.data == old(b.data) || fresh(b.data))
    ensures b.Contents() == if |bytes| > 0 && offset < old(b.length)
                            then Overwrite(old(b.Contents()), bytes, offset) else old(b.Contents())
  {
    b.CopyFromAt(bytes, offset);
  }

  /** setUInt16(s, offset): the high byte of s at offset, the low byte after it. */
  method SetUInt16(b: ExpandingArray, s: u16, offset: nat)
    requires b.Valid() && offset + 2 < b.indexLimit
    modifies b, b.data
    ensures b.Valid() && (b.data == old(b.data) || fresh(b.data))
    ensures b.Contents() == AfterSet(old(b.Contents()), s, 2, offset)
  {
    var netShort := Htons(s);
    b.CopyFromAt(ToBytesLE(netShort, 2), offset);
  }

  /** setUInt32(i, offset): four bytes, most significant first. */
  method SetUInt32(b: ExpandingArray, i: u32, offset: nat)
    requires b.Valid() && offset + 4 < b.indexLimit
    modifies b, b.data
    ensures b.Valid() && (b.data == old(b.data) || fresh(b.data))
    ensures b.Contents() == AfterSet(old(b.Contents()), i, 4, offset)
  {
    var netInt := Htonl(i);
    b.CopyFromAt(ToBytesLE(netInt, 4), offset);
  }

  /** setUInt64(ll, offset): eight bytes, most significant first. */
  method SetUInt64(b: ExpandingArray, ll: u64, offset: nat)
    requires b.Valid() && offset + 8 < b.indexLimit
    modifies b, b.data
    ensures b.Valid() && (b.data == old(b.data) || fresh(b.data))
    ensures b.Contents() == AfterSet(old(b.Contents()), ll, 8, offset)
  {
    var netLong := Htonll(ll);
    b.CopyFromAt(ToBytesLE(netLong, 8), offset);
  }

  /** getUInt8(bytes, len, offset): copyToAt of len raw bytes into dst. */
  method GetUInt8(b: ExpandingArray, dst: array<u8>, len: nat, offset: nat)
    requires b.Valid() && dst != b.data
    requires b.ReadsInRange(len, offset) ==> len <= dst.Length
    modifies dst
    ensures b.ReadsInRange(len, offset) ==>
              dst[..len] == b.Contents()[offset..offset + len] && dst[len..] == old(dst[len..])
    ensures !b.ReadsInRange(len, offset) ==> dst[..] == old(dst[..])
  {
    b.CopyToAt(dst, len, offset);
  }

  /** getUInt16(offset): the big-endian value of the two live bytes at
      offset. When they are not live nothing is copied and the C code returns
      an uninitialised variable; no value is promised then. */
  method GetUInt16(b: ExpandingArray, offset: nat) returns (v: u16)
    requires b.Valid()
    ensures b.ReadsInRange(2, offset) ==> v == FromBytesBE(b.Contents()[offset..offset + 2])
  {
    var netuint := new u8[2];
    b.CopyToAt(netuint, 2, offset);
    SwappedHostValue(netuint[..]);
    var host := FromBytesLE(netuint[..]);
    v := Ntohs(host);
    assert v == ByteSwap(host, 2);
    assert b.ReadsInRange(2, offset) ==> netuint[..] == netuint[..2] == b.Contents()[offset..offset + 2];
  }

  /** getUInt32(offset): the big-endian value of four live bytes. */
  method GetUInt32(b: ExpandingArray, offset: nat) returns (v: u32)
    requires b.Valid()
    ensures b.ReadsInRange(4, offset) ==> v == FromBytesBE(b.Contents()[offset..offset + 4])
  {
    var netuint := new u8[4];
    b.CopyToAt(netuint, 4, offset);
    SwappedHostValue(netuint[..]);
    var host := FromBytesLE(netuint[..]);
    v := Ntohl(host);
    assert v == ByteSwap(host, 4);
    assert b.ReadsInRange(4, offset) ==> netuint[..] == netuint[..4] == b.Contents()[offset..offset + 4];
  }

  /** getUInt64(offset): the big-endian value of eight live bytes. */
  method GetUInt64(b: ExpandingArray, offset: nat) returns (v: u64)
    requires b.Valid()
    ensures b.ReadsInRange(8, offset) ==> v == FromBytesBE(b.Contents()[offset..offset + 8])
  {
    var netuint := new u8[8];
    b.CopyToAt(netuint, 8, offset);
    SwappedHostValue(netuint[..]);
    var host := FromBytesLE(netuint[..]);
    v := Ntohll(host);
    assert v == ByteSwap(host, 8);
    assert b.ReadsInRange(8, offset) ==> netuint[..] == netuint[..8] == b.Contents()[offset..offset + 8];
  }

  /** Reading the n bytes just written at a live offset gives back the value. */
  lemma {:induction false} GetAfterSet(before: seq<u8>, v: nat, n: nat, offset: nat)
    requires v < Pow256(n) && offset < |before|
    ensures var after := AfterSet(before, v, n, offset);
            offset + n <= |after| && FromBytesBE(after[offset..offset + n]) == v
  {
    var after := AfterSet(before, v, n, offset);
    assert after[offset..offset + n] == ToBytesBE(v, n);
    FromToBytesBE(v, n);
  }

  /** Writing n bytes at offset, with offset + n within the live bytes, keeps
      the length and every byte outside [offset, offset + n). */
  lemma SetKeepsOtherBytes(before: seq<u8>, v: nat, n: nat, offset: nat)
    requires offset + n <= |before|
    ensures var after := AfterSet(before, v, n, offset);
            |after| == |before| &&
            forall k :: 0 <= k < |before| && !(offset <= k < offset + n) ==> after[k] == before[k]
  {
  }
}
