/** Byte-level primitives shared by every layer: fixed-width unsigned integer
    types, host/network byte-order conversion on a little-endian host, the
    CRC routines as folds of an abstract per-byte step, and `zero`. */
module Util {

  type u8 = x: int | 0 <= x < 0x100
  type u16 = x: int | 0 <= x < 0x1_0000
  type u32 = x: int | 0 <= x < 0x1_0000_0000
  type u64 = x: int | 0 <= x < 0x1_0000_0000_0000_0000

  datatype Option<T> = None | Some(value: T)

  function Min(a: int, b: int): int { if a <= b then a else b }

  /** 256 to the power n: one more than the largest n-byte unsigned value. */
  function Pow256(n: nat): (r: nat)
    ensures r > 0
  {
    if n == 0 then 1 else 256 * Pow256(n - 1)
  }

  function Reverse<T>(s: seq<T>): (r: seq<T>)
    ensures |r| == |s|
  {
    if s == [] then [] else Reverse(s[1..]) + [s[0]]
  }

  lemma {:induction false} ReverseAppend<T>(a: seq<T>, b: seq<T>)
    ensures Reverse(a + b) == Reverse(b) + Reverse(a)
  {
    if a == [] {
      assert a + b == b;
    } else {
      assert (a + b)[1..] == a[1..] + b;
      ReverseAppend(a[1..], b);
    }
  }

  lemma {:induction false} ReverseReverse<T>(s: seq<T>)
    ensures Reverse(Reverse(s)) == s
  {
    if s != [] {
      ReverseReverse(s[1..]);
      ReverseAppend(Reverse(s[1..]), [s[0]]);
      assert Reverse([s[0]]) == [s[0]];
    }
  }

  // ---------------------------------------------------------------------
  // Byte layouts of unsigned integers

  /** The n bytes of x, most significant byte first (network order). */
  function ToBytesBE(x: nat, n: nat): (r: seq<u8>)
    ensures |r| == n
  {
    if n == 0 then [] else ToBytesBE(x / 256, n - 1) + [x % 256]
  }

  /** The value of bytes given most significant byte first. */
  function FromBytesBE(s: seq<u8>): (r: nat)
    ensures r < Pow256(|s|)
  {
    if s == [] then 0 else FromBytesBE(s[..|s| - 1]) * 256 + s[|s| - 1]
  }

  /** The n bytes of x as a little-endian host stores them in memory. */
  function ToBytesLE(x: nat, n: nat): (r: seq<u8>)
    ensures |r| == n
  {
    if n == 0 then [] else [x % 256] + ToBytesLE(x / 256, n - 1)
  }

  /** The value a little-endian host reads from the bytes s in memory. */
  function FromBytesLE(s: seq<u8>): (r: nat)
    ensures r < Pow256(|s|)
  {
    if s == [] then 0 else s[0] + 256 * FromBytesLE(s[1..])
  }

  lemma {:induction false} FromToBytesBE(x: nat, n: nat)
    requires x < Pow256(n)
    ensures FromBytesBE(ToBytesBE(x, n)) == x
  {
    if n > 0 {
      var q, d := x / 256, x % 256;
      assert x == q * 256 + d;
      assert q < Pow256(n - 1);
      var s := ToBytesBE(x, n);
      assert s[..n - 1] == ToBytesBE(q, n - 1) && s[n - 1] == d;
      FromToBytesBE(q, n - 1);
    }
  }

  lemma {:induction false} ToFromBytesBE(s: seq<u8>)
    ensures ToBytesBE(FromBytesBE(s), |s|) == s
  {
    if s != [] {
      var p := s[..|s| - 1];
      var v := FromBytesBE(s);
      assert v / 256 == FromBytesBE(p) && v % 256 == s[|s| - 1];
      ToFromBytesBE(p);
      assert s == p + [s[|s| - 1]];
    }
  }

  lemma {:induction false} LittleEndianIsReversed(x: nat, n: nat)
    ensures ToBytesLE(x, n) == Reverse(ToBytesBE(x, n))
  {
    if n > 0 {
      var last: seq<u8> := [x % 256];
      LittleEndianIsReversed(x / 256, n - 1);
      ReverseAppend(ToBytesBE(x / 256, n - 1), last);
      assert Reverse(last) == last;
    }
  }

  lemma {:induction false} FromBytesLEIsReversed(s: seq<u8>)
    ensures FromBytesLE(s) == FromBytesBE(Reverse(s))
  {
    if s != [] {
      FromBytesLEIsReversed(s[1..]);
      var r := Reverse(s[1..]) + [s[0]];
      assert r[..|r| - 1] == Reverse(s[1..]);
    }
  }

  // ---------------------------------------------------------------------
  // Byte swaps (__builtin_bswap16/32/64) and the host/network conversions

  /** The value whose n bytes are those of x in reverse order. */
  function ByteSwap(x: nat, n: nat): (r: nat)
    ensures r < Pow256(n)
  {
    FromBytesBE(Reverse(ToBytesBE(x, n)))
  }

  /** Swapping reverses the n bytes of x. */
  lemma ByteSwapReverses(x: nat, n: nat)
    ensures ToBytesBE(ByteSwap(x, n), n) == Reverse(ToBytesBE(x, n))
  {
    ToFromBytesBE(Reverse(ToBytesBE(x, n)));
  }

  /** A second swap undoes the first, for every n-byte value. */
  lemma ByteSwapInvolutive(x: nat, n: nat)
    requires x < Pow256(n)
    ensures ByteSwap(ByteSwap(x, n), n) == x
  {
    ByteSwapReverses(x, n);
    ReverseReverse(ToBytesBE(x, n));
    FromToBytesBE(x, n);
  }

  /** A swapped value, stored by a little-endian host, lies in memory in
      network order: this is what every `set` of NetworkBuffer copies. */
  lemma HostBytesOfSwapped(x: nat, n: nat)
    ensures ToBytesLE(ByteSwap(x, n), n) == ToBytesBE(x, n)
  {
    LittleEndianIsReversed(ByteSwap(x, n), n);
    ByteSwapReverses(x, n);
    ReverseReverse(ToBytesBE(x, n));
  }

  /** Network-order bytes read by a little-endian host and then swapped give
      their big-endian value: this is what every `get` of NetworkBuffer returns. */
  lemma SwappedHostValue(s: seq<u8>)
    ensures ByteSwap(FromBytesLE(s), |s|) == FromBytesBE(s)
  {
    FromBytesLEIsReversed(s);
    ToFromBytesBE(Reverse(s));
    ReverseReverse(s);
  }

  /** __builtin_bswap16: exchanges the two bytes of a u16. */
  function Bswap16(s: u16): (r: u16)
    ensures r == (s % 256) * 256 + s / 256
  {
    var bytes := ToBytesBE(s, 2);
    assert ToBytesBE(s / 256, 1) == [s / 256 % 256];
    assert bytes == [s / 256 % 256, s % 256];
    var lo: seq<u8> := [s % 256];
    var swapped: seq<u8> := [s % 256, s / 256 % 256];
    assert Reverse(bytes[1..]) == bytes[1..];
    assert Reverse(bytes) == swapped;
    assert swapped[..1] == lo;
    assert FromBytesBE(lo[..0]) == 0;
    assert FromBytesBE(lo) == s % 256;
    assert FromBytesBE(swapped) == (s % 256) * 256 + s / 256 % 256;
    ByteSwap(s, 2)
  }

  /** __builtin_bswap32: reverses the four bytes of a u32. */
  function Bswap32(l: u32): (r: u32)
    ensures ToBytesBE(r, 4) == Reverse(ToBytesBE(l, 4))
  {
    ByteSwapReverses(l, 4);
    ByteSwap(l, 4)
  }

  /** __builtin_bswap64: reverses the eight bytes of a u64. */
  function Bswap64(ll: u64): (r: u64)
    ensures ToBytesBE(r, 8) == Reverse(ToBytesBE(ll, 8))
  {
    ByteSwapReverses(ll, 8);
    ByteSwap(ll, 8)
  }

  // Little-endian host: every conversion is a byte swap.
  function Htons(s: u16): (r: u16)
    ensures ToBytesLE(r, 2) == ToBytesBE(s, 2)
  {
    HostBytesOfSwapped(s, 2);
    Bswap16(s)
  }

  function Ntohs(s: u16): (r: u16)
    ensures r == FromBytesBE(ToBytesLE(s, 2))
  {
    LittleEndianIsReversed(s, 2);
    Bswap16(s)
  }

  function Htonl(l: u32): (r: u32)
    ensures ToBytesLE(r, 4) == ToBytesBE(l, 4)
  {
    HostBytesOfSwapped(l, 4);
    Bswap32(l)
  }

  function Ntohl(l: u32): (r: u32)
    ensures r == FromBytesBE(ToBytesLE(l, 4))
  {
    LittleEndianIsReversed(l, 4);
    Bswap32(l)
  }

  function Htonll(ll: u64): (r: u64)
    ensures ToBytesLE(r, 8) == ToBytesBE(ll, 8)
  {
    HostBytesOfSwapped(ll, 8);
    Bswap64(ll)
  }

  function Ntohll(ll: u64): (r: u64)
    ensures r == FromBytesBE(ToBytesLE(ll, 8))
  {
    LittleEndianIsReversed(ll, 8);
    Bswap64(ll)
  }

  lemma NtohsHtons(s: u16)
    ensures Ntohs(Htons(s)) == s && Htons(Ntohs(s)) == s
  {
    ByteSwapInvolutive(s, 2);
  }

  lemma NtohlHtonl(l: u32)
    ensures Ntohl(Htonl(l)) == l && Htonl(Ntohl(l)) == l
  {
    ByteSwapInvolutive(l, 4);
  }

  lemma NtohllHtonll(ll: u64)
    ensures Ntohll(Htonll(ll)) == ll && Htonll(Ntohll(ll)) == ll
  {
    ByteSwapInvolutive(ll, 8);
  }

  // ---------------------------------------------------------------------
  // Checksums

  /** A CRC algorithm whose table or polynomial is not part of this model:
      the value it reports as its initial seed and its per-byte update. */
  datatype CrcAlgorithm<!T> = CrcAlgorithm(init: T, step: (T, u8) -> T)

  /** The running checksum after feeding the bytes of data, in order, from crc. */
  function CrcFold<T>(step: (T, u8) -> T, crc: T, data: seq<u8>): T
  {
    if data == [] then crc else CrcFold(step, step(crc, data[0]), data[1..])
  }

  /** Feeding two pieces one after the other equals feeding their concatenation. */
  lemma {:induction false} CrcFoldAppend<T>(step: (T, u8) -> T, crc: T, a: seq<u8>, b: seq<u8>)
    ensures CrcFold(step, CrcFold(step, crc, a), b) == CrcFold(step, crc, a + b)
  {
    if a == [] {
      assert a + b == b;
    } else {
      assert (a + b)[1..] == a[1..] + b;
      CrcFoldAppend(step, step(crc, a[0]), a[1..], b);
    }
  }

  /** crc8(crc, data, len): `data` is None for a null pointer, otherwise the
      len bytes it points at. */
  function Crc8(alg: CrcAlgorithm<u8>, crc: u8, data: Option<seq<u8>>): (r: u8)
    ensures data == None ==> r == alg.init
    ensures data == Some([]) ==> r == crc
  {
    match data
    case None => alg.init
    case Some(bytes) => CrcFold(alg.step, crc, bytes)
  }

  /** crc16(crc, data, len), in the same terms as Crc8. */
  function Crc16(alg: CrcAlgorithm<u16>, crc: u16, data: Option<seq<u8>>): (r: u16)
    ensures data == None ==> r == alg.init
    ensures data == Some([]) ==> r == crc
  {
    match data
    case None => alg.init
    case Some(bytes) => CrcFold(alg.step, crc, bytes)
  }

  /** Calling Crc8 piece by piece, each call seeded with the previous result,
      checksums the concatenation of the pieces. */
  lemma Crc8Incremental(alg: CrcAlgorithm<u8>, crc: u8, a: seq<u8>, b: seq<u8>)
    ensures Crc8(alg, Crc8(alg, crc, Some(a)), Some(b)) == Crc8(alg, crc, Some(a + b))
  {
    CrcFoldAppend(alg.step, crc, a, b);
  }

  // ---------------------------------------------------------------------

  /** zero(data, len): sets the first len elements to 0. */
  method Zero(a: array<u8>, len: nat)
    requires len <= a.Length
    modifies a
    ensures forall k :: 0 <= k < len ==> a[k] == 0
    ensures forall k :: len <= k < a.Length ==> a[k] == old(a[k])
  {
    forall k | 0 <= k < len {
      a[k] := 0;
    }
  }
}
