/** The outer RadioPacket frame (RadioPacket.h, RadioPacket.cpp): a 9-byte
    header (packet length, version, transmitter id, receiver id, fragment
    number, body length, CRC-8) followed by at most 246 body bytes, the whole
    frame fitting in the 255 bytes the radio library carries. */
module PacketCodec {
  import opened Util
  import opened Buffers
  import NetworkBuffer
  import MessageCodec

  const MAX_PACKET_LENGTH: nat := 0xFF
  const HEADER_LEN: nat := 9
  const MAX_BODY_LENGTH: nat := MAX_PACKET_LENGTH - HEADER_LEN
  const PACKET_LENGTH_OFFSET: nat := 0x0
  const VERSION_OFFSET: nat := 0x1
  const TRANSMITTER_ID_OFFSET: nat := 0x2
  const RECEIVER_ID_OFFSET: nat := 0x4
  const FRAGMENT_OFFSET: nat := 0x6
  const BODYLEN_OFFSET: nat := 0x7
  const CRC_OFFSET: nat := 0x8
  const BODY_OFFSET: nat := 0x9
  /** The storage is indexed by uint8_t. */
  const INDEX_LIMIT: nat := 0x100
  /** `_DEFAULT_HEADER`. */
  const DEFAULT_HEADER: seq<u8> := [9, 1, 0x00, 0x00, 0xFF, 0xFF, 1, 0, 0]

  datatype ParseStatus = Ok | IncompleteHeader | InsufficientBytes | MaxLengthExceeded
  {
    /** The PARSE_* constant returned for this status. */
    function Code(): (c: u8)
      ensures c < 4
    {
      match this
      case Ok => 0
      case IncompleteHeader => 1
      case InsufficientBytes => 2
      case MaxLengthExceeded => 3
    }
  }

  lemma StatusCodesDistinct(a: ParseStatus, b: ParseStatus)
    ensures a.Code() == b.Code() <==> a == b
  {
  }

  /** The header fields, in wire order. */
  datatype Header = Header(packetLength: u8, version: u8, transmitterId: u16, receiverId: u16,
                           fragmentNumber: u8, bodyLength: u8, crc8: u8)

  /** The fields `_DEFAULT_HEADER` holds: length 9, version 1, transmitter 0,
      receiver 0xFFFF (broadcast), fragment 1, empty body, CRC 0. */
  const DEFAULT_FIELDS: Header := Header(9, 1, 0, 0xFFFF, 1, 0, 0)

  function EncodeHeader(h: Header): (s: seq<u8>)
    ensures |s| == HEADER_LEN
  {
    [h.packetLength, h.version] + ToBytesBE(h.transmitterId, 2) + ToBytesBE(h.receiverId, 2) +
    [h.fragmentNumber, h.bodyLength, h.crc8]
  }

  /** A big-endian 16-bit field. */
  function U16At(bytes: seq<u8>, offset: nat): u16
    requires offset + 2 <= |bytes|
  {
    var field := bytes[offset..offset + 2];
    assert |field| == 2 && Pow256(2) == 0x1_0000;
    FromBytesBE(field)
  }

  function DecodeHeader(bytes: seq<u8>): Header
    requires |bytes| >= HEADER_LEN
  {
    Header(bytes[PACKET_LENGTH_OFFSET], bytes[VERSION_OFFSET], U16At(bytes, TRANSMITTER_ID_OFFSET),
           U16At(bytes, RECEIVER_ID_OFFSET), bytes[FRAGMENT_OFFSET], bytes[BODYLEN_OFFSET], bytes[CRC_OFFSET])
  }

  lemma DecodeEncodeHeader(h: Header)
    ensures DecodeHeader(EncodeHeader(h)) == h
  {
    var s := EncodeHeader(h);
    assert s[TRANSMITTER_ID_OFFSET..TRANSMITTER_ID_OFFSET + 2] == ToBytesBE(h.transmitterId, 2);
    assert s[RECEIVER_ID_OFFSET..RECEIVER_ID_OFFSET + 2] == ToBytesBE(h.receiverId, 2);
    FromToBytesBE(h.transmitterId, 2);
    FromToBytesBE(h.receiverId, 2);
  }

  lemma EncodeDecodeHeader(bytes: seq<u8>)
    requires |bytes| == HEADER_LEN
    ensures EncodeHeader(DecodeHeader(bytes)) == bytes
  {
    ToFromBytesBE(bytes[TRANSMITTER_ID_OFFSET..TRANSMITTER_ID_OFFSET + 2]);
    ToFromBytesBE(bytes[RECEIVER_ID_OFFSET..RECEIVER_ID_OFFSET + 2]);
    assert bytes == bytes[..2] + bytes[2..4] + bytes[4..6] + bytes[6..];
  }

  lemma DefaultHeaderFields()
    ensures EncodeHeader(DEFAULT_FIELDS) == DEFAULT_HEADER
    ensures DecodeHeader(DEFAULT_HEADER) == DEFAULT_FIELDS
  {
    DecodeEncodeHeader(DEFAULT_FIELDS);
  }

  /** The bytes of a packet with header fields h and the given body: the
      packet-length and body-length fields are set from the body. */
  function Frame(h: Header, body: seq<u8>): (s: seq<u8>)
    requires |body| <= MAX_BODY_LENGTH
  {
    EncodeHeader(h.(packetLength := HEADER_LEN + |body|, bodyLength := |body|)) + body
  }

  /** The frame around body of the header encoded as header: the encoded
      header with its two length bytes rewritten, then the body. */
  lemma FrameOfEncoded(h: Header, header: seq<u8>, body: seq<u8>)
    requires |body| <= MAX_BODY_LENGTH && EncodeHeader(h) == header
    ensures Frame(h, body) == header[PACKET_LENGTH_OFFSET := HEADER_LEN + |body|][BODYLEN_OFFSET := |body|] + body
  {
  }

  /** The default header framed around body, as setBodyData writes it. */
  lemma DefaultFrame(body: seq<u8>)
    requires |body| <= MAX_BODY_LENGTH
    ensures Frame(DEFAULT_FIELDS, body) ==
            DEFAULT_HEADER[PACKET_LENGTH_OFFSET := HEADER_LEN + |body|][BODYLEN_OFFSET := |body|] + body
  {
    DefaultHeaderFields();
    FrameOfEncoded(DEFAULT_FIELDS, DEFAULT_HEADER, body);
  }

  /** Fragment f's header framed around chunk, as setRawFragmentNumber and
      setBodyData write it over the default header. */
  lemma FragmentFrame(f: u8, chunk: seq<u8>)
    requires |chunk| <= MAX_BODY_LENGTH
    ensures Frame(DEFAULT_FIELDS.(fragmentNumber := f), chunk) ==
            DEFAULT_HEADER[FRAGMENT_OFFSET := f][PACKET_LENGTH_OFFSET := HEADER_LEN + |chunk|][BODYLEN_OFFSET := |chunk|] + chunk
  {
    DefaultHeaderFields();
    FrameOfEncoded(DEFAULT_FIELDS.(fragmentNumber := f), DEFAULT_HEADER[FRAGMENT_OFFSET := f], chunk);
  }

  /** Whether the body-length field stays within the bytes present. */
  predicate BodyFits(bytes: seq<u8>)
  {
    |bytes| >= HEADER_LEN && bytes[BODYLEN_OFFSET] <= |bytes| - HEADER_LEN
  }

  /** The body as the body-length field delimits it. */
  function BodyOf(bytes: seq<u8>): (b: seq<u8>)
    requires BodyFits(bytes)
    ensures |b| == bytes[BODYLEN_OFFSET] <= MAX_BODY_LENGTH || |bytes| > MAX_PACKET_LENGTH
  {
    bytes[BODY_OFFSET..BODY_OFFSET + bytes[BODYLEN_OFFSET]]
  }

  /** The header fields depend only on the first nine bytes. */
  lemma DecodeHeaderPrefix(bytes: seq<u8>)
    requires |bytes| >= HEADER_LEN
    ensures DecodeHeader(bytes) == DecodeHeader(bytes[..HEADER_LEN])
  {
    var prefix := bytes[..HEADER_LEN];
    assert prefix[TRANSMITTER_ID_OFFSET..TRANSMITTER_ID_OFFSET + 2] == bytes[TRANSMITTER_ID_OFFSET..TRANSMITTER_ID_OFFSET + 2];
    assert prefix[RECEIVER_ID_OFFSET..RECEIVER_ID_OFFSET + 2] == bytes[RECEIVER_ID_OFFSET..RECEIVER_ID_OFFSET + 2];
  }

  /** A frame's fields read back as the header and body that built it. */
  lemma FrameFields(h: Header, body: seq<u8>)
    requires |body| <= MAX_BODY_LENGTH
    ensures var s := Frame(h, body);
            |s| == HEADER_LEN + |body| && BodyFits(s) && BodyOf(s) == body &&
            DecodeHeader(s) == h.(packetLength := HEADER_LEN + |body|, bodyLength := |body|)
  {
    var h' := h.(packetLength := HEADER_LEN + |body|, bodyLength := |body|);
    var s := Frame(h, body);
    DecodeEncodeHeader(h');
    assert s[..HEADER_LEN] == EncodeHeader(h');
    DecodeHeaderPrefix(s);
  }

  /** The status RadioPacket::parse returns for the bytes buff. */
  function Classify(buff: seq<u8>): (r: ParseStatus)
    ensures r == IncompleteHeader <==> |buff| < HEADER_LEN
    ensures r == InsufficientBytes <==>
              |buff| >= HEADER_LEN && buff[BODYLEN_OFFSET] > |buff| - HEADER_LEN
    ensures r == MaxLengthExceeded <==>
              |buff| >= HEADER_LEN && buff[BODYLEN_OFFSET] <= |buff| - HEADER_LEN &&
              buff[BODYLEN_OFFSET] > MAX_BODY_LENGTH
    ensures r == Ok <==>
              |buff| >= HEADER_LEN && buff[BODYLEN_OFFSET] <= |buff| - HEADER_LEN &&
              buff[BODYLEN_OFFSET] <= MAX_BODY_LENGTH
  {
    if |buff| < HEADER_LEN then IncompleteHeader
    else if buff[BODYLEN_OFFSET] > |buff| - HEADER_LEN then InsufficientBytes
    else if buff[BODYLEN_OFFSET] > MAX_BODY_LENGTH then MaxLengthExceeded
    else Ok
  }

  /** The bytes of the packet parse builds from buff: the header copied from
      buff with the packet-length field recomputed by setBodyData, then the
      declared body. */
  function ParsedBytes(buff: seq<u8>): (s: seq<u8>)
    requires Classify(buff) == Ok
    ensures BodyFits(s) && |s| <= MAX_PACKET_LENGTH
  {
    buff[..HEADER_LEN][PACKET_LENGTH_OFFSET := HEADER_LEN + buff[BODYLEN_OFFSET]] +
    buff[HEADER_LEN..HEADER_LEN + buff[BODYLEN_OFFSET]]
  }

  /** A frame followed by any bytes parses back to exactly that frame. */
  lemma ParseFrame(h: Header, body: seq<u8>, rest: seq<u8>)
    requires |body| <= MAX_BODY_LENGTH
    ensures var buff := Frame(h, body) + rest;
            Classify(buff) == Ok && ParsedBytes(buff) == Frame(h, body)
  {
    var s := Frame(h, body);
    FrameFields(h, body);
    var buff := s + rest;
    assert buff[BODYLEN_OFFSET] == s[BODYLEN_OFFSET] == |body|;
    assert buff[..HEADER_LEN] == s[..HEADER_LEN];
    assert buff[HEADER_LEN..HEADER_LEN + |body|] == body;
    assert s == s[..HEADER_LEN] + body;
  }

  /** parse does not trust the packet-length field: the status and the
      packet it builds do not depend on byte 0. */
  lemma ParseIgnoresLengthField(buff: seq<u8>, b: u8)
    requires |buff| >= HEADER_LEN
    ensures Classify(buff[PACKET_LENGTH_OFFSET := b]) == Classify(buff)
    ensures Classify(buff) == Ok ==> ParsedBytes(buff[PACKET_LENGTH_OFFSET := b]) == ParsedBytes(buff)
  {
    var buff' := buff[PACKET_LENGTH_OFFSET := b];
    assert buff'[HEADER_LEN..] == buff[HEADER_LEN..];
  }

  /** A body-length field above the maximum is rejected with its own status
      when enough bytes follow it. */
  lemma MaxLengthExceededReachable()
    ensures Classify([9, 1, 0, 0, 0xFF, 0xFF, 1, 250, 0] + seq(250, _ => 0)) == MaxLengthExceeded
  {
  }

  /** The bytes generateChecksum feeds to the CRC: the header without its
      CRC byte, then the declared body. */
  function ChecksumInput(bytes: seq<u8>): (s: seq<u8>)
    requires BodyFits(bytes)
  {
    bytes[..CRC_OFFSET] + BodyOf(bytes)
  }

  /** The checksum excludes the CRC field: writing any value there leaves
      the checksummed bytes as they were. */
  lemma ChecksumIgnoresCrcField(bytes: seq<u8>, c: u8)
    requires BodyFits(bytes)
    ensures BodyFits(bytes[CRC_OFFSET := c]) && ChecksumInput(bytes[CRC_OFFSET := c]) == ChecksumInput(bytes)
  {
    var bytes' := bytes[CRC_OFFSET := c];
    assert bytes'[..CRC_OFFSET] == bytes[..CRC_OFFSET];
    assert BodyOf(bytes') == BodyOf(bytes);
  }

  /** Two frames that differ only in the CRC field have the same checksum. */
  lemma FrameChecksumIgnoresCrc(alg: CrcAlgorithm<u8>, h: Header, body: seq<u8>, c: u8)
    requires |body| <= MAX_BODY_LENGTH
    ensures FrameFits(h.(crc8 := c), body) && FrameFits(h, body)
    ensures CrcFold(alg.step, alg.init, ChecksumInput(Frame(h.(crc8 := c), body)))
         == CrcFold(alg.step, alg.init, ChecksumInput(Frame(h, body)))
  {
    FrameFields(h, body);
    FrameFields(h.(crc8 := c), body);
    var s := Frame(h, body);
    assert Frame(h.(crc8 := c), body) == s[CRC_OFFSET := c];
    ChecksumIgnoresCrcField(s, c);
  }

  /** A frame's body-length field stays within its bytes. */
  predicate FrameFits(h: Header, body: seq<u8>)
    requires |body| <= MAX_BODY_LENGTH
  {
    BodyFits(Frame(h, body))
  }

  /** calculateFragmentNumber(len): ceil(len / 246), returned as a uint8_t. */
  function CalculateFragmentNumber(len: u16): (r: u8)
    ensures len <= 0xFF * 246 ==>
              r * 246 >= len && (r == 0 || (r - 1) * 246 < len)
  {
    ((len + MAX_BODY_LENGTH - 1) / MAX_BODY_LENGTH) % 0x100
  }

  /** The bytes fragment f carries: the f-th run of 246 bytes of data, the
      last run holding what is left. */
  function ChunkAt(data: seq<u8>, f: nat): (c: seq<u8>)
    ensures |c| <= MAX_BODY_LENGTH
  {
    data[Min(f * 246, |data|)..Min((f + 1) * 246, |data|)]
  }

  /** The first n chunks of data. */
  function Chunks(data: seq<u8>, n: nat): (r: seq<seq<u8>>)
    ensures |r| == n && forall f :: 0 <= f < n ==> r[f] == ChunkAt(data, f)
  {
    if n == 0 then [] else Chunks(data, n - 1) + [ChunkAt(data, n - 1)]
  }

  /** The concatenation of a sequence of byte strings, in order. */
  function Flatten(parts: seq<seq<u8>>): seq<u8>
  {
    if parts == [] then [] else Flatten(parts[..|parts| - 1]) + parts[|parts| - 1]
  }

  /** The first n chunks put back together are the first n * 246 bytes. */
  lemma {:induction false} FlattenChunks(data: seq<u8>, n: nat)
    ensures Flatten(Chunks(data, n)) == data[..Min(n * 246, |data|)]
  {
    if n == 0 {
      assert data[..0] == [];
    } else {
      var c := Chunks(data, n);
      var prev := Chunks(data, n - 1);
      var lo := Min((n - 1) * 246, |data|);
      var hi := Min(n * 246, |data|);
      assert c[..n - 1] == prev && c[n - 1] == data[lo..hi];
      assert Flatten(c) == Flatten(prev) + data[lo..hi];
      FlattenChunks(data, n - 1);
      assert data[..hi] == data[..lo] + data[lo..hi];
    }
  }

  /** The fragments calculateFragmentNumber counts cover all of data, for
      every length whose count fits in a uint8_t. */
  lemma ChunksCoverData(data: seq<u8>)
    requires |data| <= 0xFF * 246
    ensures Flatten(Chunks(data, CalculateFragmentNumber(|data|))) == data
  {
    FlattenChunks(data, CalculateFragmentNumber(|data|));
  }

  /** Every chunk but the last of a fragmentation is full; the last holds
      the remaining 1 to 246 bytes. */
  lemma ChunkLengths(data: seq<u8>, f: nat)
    requires |data| <= 0xFF * 246 && f < CalculateFragmentNumber(|data|)
    ensures f + 1 < CalculateFragmentNumber(|data|) ==> |ChunkAt(data, f)| == MAX_BODY_LENGTH
    ensures f + 1 == CalculateFragmentNumber(|data|) ==> |ChunkAt(data, f)| == |data| - f * 246 > 0
  {
  }

  /** Flatten of one more part appends it. */
  lemma FlattenSnoc(parts: seq<seq<u8>>, i: nat)
    requires i < |parts|
    ensures Flatten(parts[..i + 1]) == Flatten(parts[..i]) + parts[i]
  {
    assert parts[..i + 1][..i] == parts[..i];
  }

  /** The end of the source range fragment2 reads for fragment f, as
      RadioPacket.cpp:252-254 writes it: always a full 246 bytes. */
  function Fragment2ReadEndAsWritten(f: nat): nat
  {
    f * 246 + 246
  }

  /** Fragmenting 10 bytes as written reads 246 bytes from a 10-byte source,
      while the intended chunk stays inside the data. */
  lemma Fragment2AsWrittenOverreads()
    ensures CalculateFragmentNumber(10) == 1
    ensures Fragment2ReadEndAsWritten(0) == 246 > 10
    ensures forall data: seq<u8> | |data| == 10 :: ChunkAt(data, 0) == data
  {
  }

  /** What defragment returns after copying byteOffset bytes, as
      RadioPacket.cpp:306 writes it: one more, in uint16_t arithmetic. */
  function DefragmentCountAsWritten(byteOffset: u16): u16
  {
    (byteOffset + 1) % 0x1_0000
  }

  /** One packet with a 3-byte body: defragment copies 3 bytes but reports 4;
      copying nothing reports 1. */
  lemma DefragmentCountAsWrittenIsOffByOne()
    ensures |Flatten([[0xAA, 0xBB, 0xCC]])| == 3 && DefragmentCountAsWritten(3) == 4
    ensures |Flatten([])| == 0 && DefragmentCountAsWritten(0) == 1
  {
    assert Flatten([[0xAA, 0xBB, 0xCC]]) == Flatten([]) + [0xAA, 0xBB, 0xCC];
  }

  /** A packet whose body is a serialized message yields that message. */
  lemma MessageInFrame(h: Header, action: u16, messageBody: seq<u8>)
    requires MessageCodec.HEADER_LEN + |messageBody| <= MAX_BODY_LENGTH
    ensures var body := MessageCodec.Serialize(action, messageBody);
            var s := Frame(h, body);
            BodyFits(s) && MessageCodec.Classify(BodyOf(s)) == MessageCodec.Ok &&
            BodyOf(s)[..MessageCodec.HEADER_LEN + MessageCodec.BodyLengthOf(BodyOf(s))] == body
  {
    var body := MessageCodec.Serialize(action, messageBody);
    MessageCodec.SerializeFields(action, messageBody);
    FrameFields(h, body);
    MessageCodec.ParseSerialized(action, messageBody, []);
    assert body + [] == body;
  }

  class RadioPacket {
    /** `_data`: a NetworkBuffer<uint8_t, uint8_t>. */
    const buffer: ExpandingArray

    ghost function Repr(): set<object>
      reads this, buffer
    {
      {this, buffer} + (if buffer.data == null then {} else {buffer.data})
    }

    ghost predicate Valid()
      reads this, buffer
    {
      && buffer.Valid()
      && buffer.indexLimit == INDEX_LIMIT
      && buffer.data != null
      && buffer.length >= HEADER_LEN
    }

    /** getData(): the whole packet. */
    function Data(): (s: seq<u8>)
      reads this, buffer, buffer.data
      requires Valid()
      ensures HEADER_LEN <= |s| <= MAX_PACKET_LENGTH
    {
      buffer.Contents()
    }

    /** getHeaderData(): the header bytes. */
    function HeaderData(): (s: seq<u8>)
      reads this, buffer, buffer.data
      requires Valid()
      ensures |s| == HEADER_LEN && s == Data()[..HEADER_LEN]
    {
      Data()[..HEADER_LEN]
    }

    /** getBodyData(): the bytes after the header. */
    function BodyData(): (s: seq<u8>)
      reads this, buffer, buffer.data
      requires Valid()
      ensures HeaderData() + s == Data()
    {
      Data()[BODY_OFFSET..]
    }

    /** The body-length field does not claim more bytes than there are. */
    predicate BodyFieldFits()
      reads this, buffer, buffer.data
      requires Valid()
    {
      BodyFits(Data())
    }

    /** The body as getRawBodyLength() delimits it. */
    function DeclaredBody(): (b: seq<u8>)
      reads this, buffer, buffer.data
      requires Valid() && BodyFieldFits()
      ensures |b| <= MAX_BODY_LENGTH && b == BodyOf(Data())
    {
      Data()[BODY_OFFSET..BODY_OFFSET + Data()[BODYLEN_OFFSET]]
    }

    /** A new packet holds exactly the default header. */
    constructor ()
      ensures Valid() && fresh(Repr()) && Data() == DEFAULT_HEADER
    {
      buffer := new ExpandingArray(INDEX_LIMIT, 0);
      new;
      Init();
    }

    /** RadioPacket(body, len): the default header fields around body. */
    constructor WithBody(body: seq<u8>)
      requires |body| <= MAX_BODY_LENGTH
      ensures Valid() && fresh(Repr()) && Data() == Frame(DEFAULT_FIELDS, body)
    {
      buffer := new ExpandingArray(INDEX_LIMIT, 0);
      new;
      Init();
      assert HeaderData() == DEFAULT_HEADER;
      SetBodyData(body);
      DefaultFrame(body);
    }

    /** `_init()`: clear, then make the bytes the default header. */
    method Init()
      requires buffer.Valid() && buffer.indexLimit == INDEX_LIMIT
      modifies buffer, buffer.data
      ensures Valid() && Data() == DEFAULT_HEADER
      ensures buffer.data == old(buffer.data) || fresh(buffer.data)
    {
      buffer.Clear();
      buffer.Resize(HEADER_LEN, false);
      buffer.CopyFrom(DEFAULT_HEADER);
    }

    /** reset(): back to the default header, with no body. */
    method Reset()
      requires Valid()
      modifies buffer, buffer.data
      ensures Valid() && Data() == DEFAULT_HEADER
      ensures buffer.data == old(buffer.data) || fresh(buffer.data)
    {
      Init();
    }

    function GetRawPacketLength(): (r: u8)
      reads this, buffer, buffer.data
      requires Valid()
      ensures r == DecodeHeader(Data()).packetLength
    {
      buffer.At(PACKET_LENGTH_OFFSET)
    }

    function GetRawVersion(): (r: u8)
      reads this, buffer, buffer.data
      requires Valid()
      ensures r == DecodeHeader(Data()).version
    {
      buffer.At(VERSION_OFFSET)
    }

    method GetRawTransmitterId() returns (r: u16)
      requires Valid()
      ensures r == DecodeHeader(Data()).transmitterId
    {
      r := NetworkBuffer.GetUInt16(buffer, TRANSMITTER_ID_OFFSET);
    }

    method GetRawReceiverId() returns (r: u16)
      requires Valid()
      ensures r == DecodeHeader(Data()).receiverId
    {
      r := NetworkBuffer.GetUInt16(buffer, RECEIVER_ID_OFFSET);
    }

    function GetRawFragmentNumber(): (r: u8)
      reads this, buffer, buffer.data
      requires Valid()
      ensures r == DecodeHeader(Data()).fragmentNumber
    {
      buffer.At(FRAGMENT_OFFSET)
    }

    function GetRawBodyLength(): (r: u8)
      reads this, buffer, buffer.data
      requires Valid()
      ensures r == DecodeHeader(Data()).bodyLength
    {
      buffer.At(BODYLEN_OFFSET)
    }

    function GetRawCrc8(): (r: u8)
      reads this, buffer, buffer.data
      requires Valid()
      ensures r == DecodeHeader(Data()).crc8
    {
      buffer.At(CRC_OFFSET)
    }

    method SetRawPacketLength(len: u8)
      requires Valid()
      modifies buffer.data
      ensures Valid() && Data() == old(Data())[PACKET_LENGTH_OFFSET := len]
    {
      buffer.SetAt(PACKET_LENGTH_OFFSET, len);
    }

    method SetRawVersion(version: u8)
      requires Valid()
      modifies buffer.data
      ensures Valid() && Data() == old(Data())[VERSION_OFFSET := version]
    {
      buffer.SetAt(VERSION_OFFSET, version);
    }

    /** setRawTransmitterId(id): bytes 2-3 become id, most significant first;
        every other field is kept. */
    method SetRawTransmitterId(id: u16)
      requires Valid()
      modifies buffer, buffer.data
      ensures Valid() && (buffer.data == old(buffer.data) || fresh(buffer.data))
      ensures Data() == old(Data())[..TRANSMITTER_ID_OFFSET] + ToBytesBE(id, 2) + old(Data())[RECEIVER_ID_OFFSET..]
      ensures DecodeHeader(Data()) == DecodeHeader(old(Data())).(transmitterId := id)
    {
      ghost var before := Data();
      NetworkBuffer.SetUInt16(buffer, id, TRANSMITTER_ID_OFFSET);
      assert Data() == before[..TRANSMITTER_ID_OFFSET] + ToBytesBE(id, 2) + before[RECEIVER_ID_OFFSET..];
      assert Data()[TRANSMITTER_ID_OFFSET..TRANSMITTER_ID_OFFSET + 2] == ToBytesBE(id, 2);
      assert Data()[RECEIVER_ID_OFFSET..RECEIVER_ID_OFFSET + 2] == before[RECEIVER_ID_OFFSET..RECEIVER_ID_OFFSET + 2];
      FromToBytesBE(id, 2);
    }

    /** setRawReceiverId(id): bytes 4-5 become id, most significant first;
        every other field is kept. */
    method SetRawReceiverId(id: u16)
      requires Valid()
      modifies buffer, buffer.data
      ensures Valid() && (buffer.data == old(buffer.data) || fresh(buffer.data))
      ensures Data() == old(Data())[..RECEIVER_ID_OFFSET] + ToBytesBE(id, 2) + old(Data())[FRAGMENT_OFFSET..]
      ensures DecodeHeader(Data()) == DecodeHeader(old(Data())).(receiverId := id)
    {
      ghost var before := Data();
      NetworkBuffer.SetUInt16(buffer, id, RECEIVER_ID_OFFSET);
      assert Data() == before[..RECEIVER_ID_OFFSET] + ToBytesBE(id, 2) + before[FRAGMENT_OFFSET..];
      assert Data()[RECEIVER_ID_OFFSET..RECEIVER_ID_OFFSET + 2] == ToBytesBE(id, 2);
      assert Data()[TRANSMITTER_ID_OFFSET..TRANSMITTER_ID_OFFSET + 2] == before[TRANSMITTER_ID_OFFSET..TRANSMITTER_ID_OFFSET + 2];
      FromToBytesBE(id, 2);
    }

    method SetRawFragmentNumber(n: u8)
      requires Valid()
      modifies buffer.data
      ensures Valid() && Data() == old(Data())[FRAGMENT_OFFSET := n]
    {
      buffer.SetAt(FRAGMENT_OFFSET, n);
    }

    method SetRawBodyLength(len: u8)
      requires Valid()
      modifies buffer.data
      ensures Valid() && Data() == old(Data())[BODYLEN_OFFSET := len]
    {
      buffer.SetAt(BODYLEN_OFFSET, len);
    }

    method SetRawCrc8(crc: u8)
      requires Valid()
      modifies buffer.data
      ensures Valid() && Data() == old(Data())[CRC_OFFSET := crc]
    {
      buffer.SetAt(CRC_OFFSET, crc);
    }

    /** resizeBody(bodyLen, copy): for a body length the format allows, the
        packet becomes header + bodyLen bytes; the packet-length and
        body-length fields are rewritten and the rest of the header is kept;
        with copy the surviving body prefix is kept too. A longer body
        length changes nothing. */
    method ResizeBody(bodyLen: u8, copy: bool := true)
      requires Valid()
      modifies buffer, buffer.data
      ensures Valid() && (buffer.data == old(buffer.data) || fresh(buffer.data))
      ensures bodyLen > MAX_BODY_LENGTH ==> Data() == old(Data())
      ensures bodyLen <= MAX_BODY_LENGTH ==>
                |Data()| == HEADER_LEN + bodyLen && BodyFieldFits() &&
                HeaderData() == old(HeaderData())[PACKET_LENGTH_OFFSET := HEADER_LEN + bodyLen][BODYLEN_OFFSET := bodyLen]
      ensures bodyLen <= MAX_BODY_LENGTH && copy ==>
                BodyData()[..Min(bodyLen, |old(BodyData())|)] == old(BodyData())[..Min(bodyLen, |old(BodyData())|)]
    {
      if bodyLen > MAX_BODY_LENGTH {
        return;
      }
      ghost var before := Data();
      ResizeKeepingHeader(HEADER_LEN + bodyLen, copy);
      ghost var resized := Data();
      if copy {
        PrefixKeptPastOffset(resized, before, HEADER_LEN, bodyLen);
      }
      SetRawPacketLength(HEADER_LEN + bodyLen);
      SetRawBodyLength(bodyLen);
      assert Data()[BODY_OFFSET..] == resized[BODY_OFFSET..];
      assert HeaderData() == resized[..HEADER_LEN][PACKET_LENGTH_OFFSET := HEADER_LEN + bodyLen][BODYLEN_OFFSET := bodyLen];
    }

    /** The two branches of resizeBody before the length fields are written:
        the new length is n and the header bytes survive. */
    method ResizeKeepingHeader(n: nat, copy: bool)
      requires Valid() && HEADER_LEN <= n < INDEX_LIMIT
      modifies buffer, buffer.data
      ensures Valid() && (buffer.data == old(buffer.data) || fresh(buffer.data))
      ensures |Data()| == n && Data()[..HEADER_LEN] == old(Data())[..HEADER_LEN]
      ensures copy ==> Data()[..Min(n, |old(Data())|)] == old(Data())[..Min(n, |old(Data())|)]
    {
      if !copy {
        var headerCopy := new u8[HEADER_LEN];
        buffer.CopyTo(headerCopy, HEADER_LEN);
        ghost var header := headerCopy[..];
        buffer.Resize(n, false);
        buffer.CopyFrom(headerCopy[..]);
        assert Data()[..HEADER_LEN] == header;
      } else {
        buffer.Resize(n, true);
      }
    }

    /** setBodyData(data, len): the body becomes data; the packet-length and
        body-length fields say so and the other header fields are kept. */
    method SetBodyData(body: seq<u8>)
      requires Valid() && |body| <= MAX_BODY_LENGTH
      modifies buffer, buffer.data
      ensures Valid() && (buffer.data == old(buffer.data) || fresh(buffer.data))
      ensures Data() == old(HeaderData())[PACKET_LENGTH_OFFSET := HEADER_LEN + |body|][BODYLEN_OFFSET := |body|] + body
      ensures BodyFieldFits() && DeclaredBody() == body
    {
      ResizeBody(|body|, false);
      ghost var header := HeaderData();
      buffer.CopyFromAt(body, BODY_OFFSET);
      assert Data() == header + body;
    }

    /** generateChecksum(): the CRC-8 of the header without its CRC byte,
        followed by the declared body, seeded with the algorithm's initial
        value. */
    function GenerateChecksum(alg: CrcAlgorithm<u8>): (r: u8)
      reads this, buffer, buffer.data
      requires Valid() && BodyFieldFits()
      ensures r == CrcFold(alg.step, alg.init, ChecksumInput(Data()))
    {
      var seed := Crc8(alg, 0, None);
      var headerCrc := Crc8(alg, seed, Some(Data()[..CRC_OFFSET]));
      Crc8Incremental(alg, seed, Data()[..CRC_OFFSET], DeclaredBody());
      Crc8(alg, headerCrc, Some(DeclaredBody()))
    }

    /** getMessage(): the declared body parsed as a Message, or null when it
        does not parse. */
    method GetMessage() returns (m: MessageCodec.Message?)
      requires Valid() && BodyFieldFits()
      ensures m != null <==> MessageCodec.Classify(DeclaredBody()) == MessageCodec.Ok
      ensures m != null ==>
                fresh(m.Repr()) && m.Valid() &&
                m.Data() == DeclaredBody()[..MessageCodec.HEADER_LEN + MessageCodec.BodyLengthOf(DeclaredBody())]
    {
      var status;
      status, m := MessageCodec.Message.Parse(DeclaredBody());
    }

    /** The first step of parse: a new packet whose header is copied from
        the buffer. */
    static method FromHeader(header: seq<u8>) returns (p: RadioPacket)
      requires |header| == HEADER_LEN
      ensures fresh(p.Repr()) && p.Valid() && p.Data() == header
    {
      p := new RadioPacket();
      p.buffer.CopyFrom(header);
      assert p.Data() == header;
    }

    /** parse(&p, buff, len) with len == |buff|: the status is Classify(buff),
        and on success the new packet holds the header from buff, with its
        packet length recomputed, and the declared body. */
    static method Parse(buff: seq<u8>) returns (status: ParseStatus, p: RadioPacket?)
      requires |buff| <= 0xFFFF
      ensures status == Classify(buff)
      ensures status == Ok <==> p != null
      ensures p != null ==> fresh(p.Repr()) && p.Valid() && p.Data() == ParsedBytes(buff)
    {
      if |buff| < HEADER_LEN {
        return IncompleteHeader, null;
      }
      var pkt := FromHeader(buff[..HEADER_LEN]);
      var bodyLen := pkt.GetRawBodyLength();
      if bodyLen > |buff| - HEADER_LEN {
        return InsufficientBytes, null;
      }
      if bodyLen > MAX_BODY_LENGTH {
        return MaxLengthExceeded, null;
      }
      pkt.SetBodyData(buff[HEADER_LEN..HEADER_LEN + bodyLen]);
      return Ok, pkt;
    }

    /** This packet is fragment f of data as fragment2 builds it. */
    ghost predicate IsFragment(data: seq<u8>, f: nat)
      reads this, buffer, buffer.data
    {
      f < 0x100 && Valid() && Data() == Frame(DEFAULT_FIELDS.(fragmentNumber := f as u8), ChunkAt(data, f))
    }

    /** The loop body of fragment2: a new packet with fragment number f and
        the given body. */
    static method NewFragment(f: u8, chunk: seq<u8>) returns (p: RadioPacket)
      requires |chunk| <= MAX_BODY_LENGTH
      ensures fresh(p.Repr()) && p.Valid()
      ensures p.Data() == Frame(DEFAULT_FIELDS.(fragmentNumber := f), chunk)
    {
      p := new RadioPacket();
      p.SetRawFragmentNumber(f);
      assert p.HeaderData() == DEFAULT_HEADER[FRAGMENT_OFFSET := f];
      p.SetBodyData(chunk);
      FragmentFrame(f, chunk);
    }

    /** fragment2(packets, data, len) with len == |data|, using the intended
        chunk length: packet f of the calculateFragmentNumber(len) new
        packets carries fragment number f and the f-th chunk of data. */
    static method Fragment2(packets: array<RadioPacket?>, data: seq<u8>) returns (count: u8)
      requires |data| <= 0xFFFF && CalculateFragmentNumber(|data|) <= packets.Length
      modifies packets
      ensures count == CalculateFragmentNumber(|data|)
      ensures forall f :: 0 <= f < count ==>
                packets[f] != null && fresh(packets[f].Repr()) && packets[f].Valid() &&
                packets[f].Data() == Frame(DEFAULT_FIELDS.(fragmentNumber := f), ChunkAt(data, f))
      ensures forall f :: count <= f < packets.Length ==> packets[f] == old(packets[f])
    {
      count := CalculateFragmentNumber(|data|);
      var f: nat := 0;
      while f < count
        invariant f <= count
        invariant forall k :: 0 <= k < f ==> packets[k] != null && fresh(packets[k].Repr())
        invariant forall k {:trigger packets[k].IsFragment(data, k)} :: 0 <= k < f ==> packets[k].IsFragment(data, k)
        invariant forall k :: f <= k < packets.Length ==> packets[k] == old(packets[k])
      {
        // RadioPacket.cpp:252-254 copies a full 246 bytes for every
        // fragment; the intended chunk is ChunkAt(data, f).
        var p := NewFragment(f, ChunkAt(data, f));
        assert p.IsFragment(data, f);
        packets[f] := p;
        f := f + 1;
      }
      forall k | 0 <= k < count
        ensures packets[k].Valid() && packets[k].Data() == Frame(DEFAULT_FIELDS.(fragmentNumber := k), ChunkAt(data, k))
      {
        assert packets[k].IsFragment(data, k);
      }
    }

    /** The memcpy of one packet's declared body to dst at offset. */
    method CopyDeclaredBodyTo(dst: array<u8>, offset: nat)
      requires Valid() && BodyFieldFits() && dst != buffer.data
      requires offset + |DeclaredBody()| <= dst.Length
      modifies dst
      ensures dst[offset..offset + |DeclaredBody()|] == DeclaredBody()
      ensures forall k :: 0 <= k < dst.Length && !(offset <= k < offset + |DeclaredBody()|) ==> dst[k] == old(dst[k])
    {
      var bodyLen := GetRawBodyLength();
      forall k | 0 <= k < bodyLen {
        dst[offset + k] := buffer.data[BODY_OFFSET + k];
      }
    }

    /** The packet is valid, its declared body is body, and its storage is
        not dst. */
    ghost predicate Carries(body: seq<u8>, dst: array<u8>)
      reads this, buffer, buffer.data
    {
      Valid() && BodyFieldFits() && buffer.data != dst && DeclaredBody() == body
    }

    /** The loop body of defragment: the declared body of p, the i-th of
        bodies, is copied to data right after the first i bodies. */
    static method AppendBody(p: RadioPacket, data: array<u8>, offset: u16,
                             ghost bodies: seq<seq<u8>>, ghost i: nat, ghost orig: seq<u8>) returns (next: u16)
      requires i < |bodies| <= 0xFF && p.Carries(bodies[i], data)
      requires |Flatten(bodies)| <= data.Length
      requires Gathered(data[..], bodies, i, offset, orig)
      modifies data
      ensures Gathered(data[..], bodies, i + 1, next, orig)
    {
      ghost var before := data[..];
      FlattenStep(bodies, i);
      var bodyLen := p.GetRawBodyLength();
      p.CopyDeclaredBodyTo(data, offset);
      next := offset + bodyLen;
      assert data[..next] == before[..offset] + bodies[i];
      DropAgrees(before, orig, offset, next);
      assert data[next..] == before[next..];
    }

    /** defragment(packets, packetsLen, data): the declared bodies of the
        first packetsLen packets, bodies[i] being that of packets[i], are
        copied one after the other to the front of data, and the number of
        bytes copied is returned. */
    static method Defragment(packets: array<RadioPacket?>, packetsLen: u8, data: array<u8>,
                             ghost bodies: seq<seq<u8>>) returns (total: u16)
      requires packetsLen <= packets.Length && |bodies| == packetsLen
      requires forall i :: 0 <= i < packetsLen ==> packets[i] != null
      requires forall i {:trigger packets[i].Carries(bodies[i], data)} :: 0 <= i < packetsLen ==> packets[i].Carries(bodies[i], data)
      requires |Flatten(bodies)| <= data.Length
      modifies data
      ensures total == |Flatten(bodies)| && data[..total] == Flatten(bodies)
      ensures data[total..] == old(data[total..])
    {
      ghost var orig := data[..];
      var byteOffset: u16 := 0;
      assert bodies[..0] == [];
      // The uint8_t index stays below packetsLen, so it never wraps.
      var i: nat := 0;
      while i < packetsLen
        invariant i <= packetsLen
        invariant Gathered(data[..], bodies, i, byteOffset, orig)
      {
        assert old(packets[i].Carries(bodies[i], data));
        byteOffset := AppendBody(packets[i], data, byteOffset, bodies, i, orig);
        i := i + 1;
      }
      assert bodies[..packetsLen] == bodies;
      // RadioPacket.cpp:306 returns DefragmentCountAsWritten(byteOffset).
      total := byteOffset;
    }
  }

  /** The state defragment keeps after i packets: the first i bodies, of at
      most 246 bytes each, fill the front of d, and the bytes after them are
      those of orig. */
  ghost predicate Gathered(d: seq<u8>, bodies: seq<seq<u8>>, i: nat, offset: nat, orig: seq<u8>)
  {
    && i <= |bodies|
    && offset == |Flatten(bodies[..i])| <= i * 246
    && offset <= |d| == |orig|
    && d[..offset] == Flatten(bodies[..i])
    && d[offset..] == orig[offset..]
  }

  /** Two sequences that agree from m on agree from any later n on. */
  lemma DropAgrees(a: seq<u8>, b: seq<u8>, m: nat, n: nat)
    requires m <= n <= |a| == |b| && a[m..] == b[m..]
    ensures a[n..] == b[n..]
  {
    assert a[n..] == a[m..][n - m..];
    assert b[n..] == b[m..][n - m..];
  }

  /** One more part: the prefix grows by that part and stays within the whole. */
  lemma FlattenStep(parts: seq<seq<u8>>, i: nat)
    requires i < |parts|
    ensures Flatten(parts[..i + 1]) == Flatten(parts[..i]) + parts[i]
    ensures |Flatten(parts[..i + 1])| <= |Flatten(parts)|
  {
    FlattenSnoc(parts, i);
    FlattenPrefixWithin(parts, i + 1);
  }

  /** A prefix of the parts flattens to at most the whole. */
  lemma {:induction false} FlattenPrefixWithin(parts: seq<seq<u8>>, n: nat)
    requires n <= |parts|
    ensures |Flatten(parts[..n])| <= |Flatten(parts)|
  {
    if n < |parts| {
      var m := |parts|;
      assert parts[..m] == parts;
      FlattenSnoc(parts, m - 1);
      FlattenPrefixWithin(parts[..m - 1], n);
      assert parts[..m - 1][..n] == parts[..n];
    } else {
      assert parts[..n] == parts;
    }
  }

  /** Fragmenting data and defragmenting the packets gives back data. */
  method FragmentAndReassemble(data: seq<u8>) returns (reassembled: seq<u8>)
    requires |data| <= 0xFF * 246
    ensures reassembled == data
  {
    var buf := new u8[|data|];
    var n := CalculateFragmentNumber(|data|);
    var packets := new RadioPacket?[n];
    var count := RadioPacket.Fragment2(packets, data);
    ghost var bodies := Chunks(data, count);
    forall f | 0 <= f < count
      ensures packets[f] != null && packets[f].Valid() && packets[f].BodyFieldFits() &&
              packets[f].buffer.data != buf && packets[f].DeclaredBody() == bodies[f]
    {
      FrameFields(DEFAULT_FIELDS.(fragmentNumber := f), ChunkAt(data, f));
    }
    ChunksCoverData(data);
    var total := RadioPacket.Defragment(packets, count, buf, bodies);
    reassembled := buf[..total];
  }

  /** resizeBody without its copy argument keeps the body: a packet around
      body resized to bodyLen has bodyLen body bytes, of which the first
      min(bodyLen, |body|) are those of body. */
  method ResizeBodyKeepsBody(body: seq<u8>, bodyLen: u8) returns (resized: seq<u8>)
    requires |body| <= MAX_BODY_LENGTH && bodyLen <= MAX_BODY_LENGTH
    ensures |resized| == bodyLen && resized[..Min(bodyLen, |body|)] == body[..Min(bodyLen, |body|)]
  {
    var p := new RadioPacket.WithBody(body);
    FrameFields(DEFAULT_FIELDS, body);
    p.ResizeBody(bodyLen);
    resized := p.BodyData();
  }

  /** Writing the transmitter id and then the receiver id over a frame's
      bytes gives the frame of the header with both ids replaced. */
  lemma AddressFrame(h: Header, body: seq<u8>, t: u16, r: u16)
    requires |body| <= MAX_BODY_LENGTH
    ensures var f := Frame(h, body);
            var d := f[..TRANSMITTER_ID_OFFSET] + ToBytesBE(t, 2) + f[RECEIVER_ID_OFFSET..];
            d[..RECEIVER_ID_OFFSET] + ToBytesBE(r, 2) + d[FRAGMENT_OFFSET..]
              == Frame(h.(transmitterId := t, receiverId := r), body)
  {
    var f := Frame(h, body);
    var d := f[..TRANSMITTER_ID_OFFSET] + ToBytesBE(t, 2) + f[RECEIVER_ID_OFFSET..];
    var g := Frame(h.(transmitterId := t, receiverId := r), body);
    assert d[..RECEIVER_ID_OFFSET] == g[..RECEIVER_ID_OFFSET];
    assert d[FRAGMENT_OFFSET..] == f[FRAGMENT_OFFSET..] == g[FRAGMENT_OFFSET..];
    assert g == g[..RECEIVER_ID_OFFSET] + ToBytesBE(r, 2) + g[FRAGMENT_OFFSET..];
  }

  /** A packet around body addressed from transmitterId to receiverId:
      the default header fields with both ids set, framed around body. */
  method Addressed(transmitterId: u16, receiverId: u16, body: seq<u8>) returns (p: RadioPacket)
    requires |body| <= MAX_BODY_LENGTH
    ensures fresh(p.Repr()) && p.Valid()
    ensures p.Data() == Frame(DEFAULT_FIELDS.(transmitterId := transmitterId, receiverId := receiverId), body)
  {
    p := new RadioPacket.WithBody(body);
    p.SetRawTransmitterId(transmitterId);
    p.SetRawReceiverId(receiverId);
    AddressFrame(DEFAULT_FIELDS, body, transmitterId, receiverId);
  }

  /** A message carried in a packet from transmitter to receiver: the
      packet's bytes, with any trailing bytes, parse to a packet with the
      same addresses whose body yields the same message. */
  method CarryMessage(transmitterId: u16, receiverId: u16, action: u16, messageBody: seq<u8>, trailing: seq<u8>)
    returns (gotTransmitter: u16, gotReceiver: u16, gotAction: u16, gotBody: seq<u8>)
    requires MessageCodec.HEADER_LEN + |messageBody| <= MAX_BODY_LENGTH
    requires |trailing| <= 0xFF
    ensures gotTransmitter == transmitterId && gotReceiver == receiverId
    ensures gotAction == action && gotBody == messageBody
  {
    var bytes, _, _ := MessageCodec.BuildAndParse(action, messageBody);
    var p := Addressed(transmitterId, receiverId, bytes);
    var h := DEFAULT_FIELDS.(transmitterId := transmitterId, receiverId := receiverId);
    ParseFrame(h, bytes, trailing);
    var status, q := RadioPacket.Parse(p.Data() + trailing);
    FrameFields(h, bytes);
    gotTransmitter := q.GetRawTransmitterId();
    gotReceiver := q.GetRawReceiverId();
    MessageInFrame(h, action, messageBody);
    var m := q.GetMessage();
    gotAction := m.GetRawAction();
    gotBody := m.BodyData();
    MessageCodec.SerializeFields(action, messageBody);
  }
}
