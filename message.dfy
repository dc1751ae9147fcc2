/** The inner Message format (Message.h, src/Message.cpp): a 4-byte header,
    body length then action, both big-endian u16, followed by the body. */
module MessageCodec {
  import opened Util
  import opened Buffers
  import NetworkBuffer

  const MAX_MESSAGE_LENGTH: nat := 0xFFFF
  const HEADER_LEN: nat := 4
  const MAX_BODY_LENGTH: nat := MAX_MESSAGE_LENGTH - HEADER_LEN
  const BODYLEN_OFFSET: nat := 0x0
  const ACTION_OFFSET: nat := 0x2
  const BODY_OFFSET: nat := 0x4
  /** Body length 0 and action 0. */
  const DEFAULT_HEADER: seq<u8> := [0x0, 0x0, 0x0, 0x0]
  /** The storage is indexed by uint16_t. */
  const INDEX_LIMIT: nat := 0x1_0000
  /** Declared beside the parse codes; nothing returns it. */
  const BODY_LENGTH_EXCEEDED: u8 := 4

  datatype ParseStatus = Ok | InsufficientHeaderBytes | InsufficientBufferBytes | BodyLengthExceeded
  {
    /** The PARSE_* constant returned for this status. */
    function Code(): (c: u8)
      ensures c < 4
    {
      match this
      case Ok => 0
      case InsufficientHeaderBytes => 1
      case InsufficientBufferBytes => 2
      case BodyLengthExceeded => 3
    }
  }

  lemma StatusCodesDistinct(a: ParseStatus, b: ParseStatus)
    ensures a.Code() == b.Code() <==> a == b
  {
  }

  /** getHeaderLength() + offset, returned as a uint16_t. */
  function FromBaseBodyOffset(offset: u16 := 0): (r: u16)
    ensures offset <= MAX_BODY_LENGTH ==> r == BODY_OFFSET + offset
    ensures offset > MAX_BODY_LENGTH ==> r == offset - (MAX_BODY_LENGTH + 1)
  {
    (HEADER_LEN + offset) % 0x1_0000
  }

  /** The body-length field of a message's bytes. */
  function BodyLengthOf(bytes: seq<u8>): u16
    requires |bytes| >= HEADER_LEN
  {
    var field := bytes[BODYLEN_OFFSET..BODYLEN_OFFSET + 2];
    assert |field| == 2 && Pow256(2) == 0x1_0000;
    FromBytesBE(field)
  }

  /** The action field of a message's bytes. */
  function ActionOf(bytes: seq<u8>): u16
    requires |bytes| >= HEADER_LEN
  {
    var field := bytes[ACTION_OFFSET..ACTION_OFFSET + 2];
    assert |field| == 2 && Pow256(2) == 0x1_0000;
    FromBytesBE(field)
  }

  /** The bytes of a message with the given action and body. */
  function Serialize(action: u16, body: seq<u8>): (s: seq<u8>)
    requires |body| <= MAX_BODY_LENGTH
  {
    ToBytesBE(|body|, 2) + ToBytesBE(action, 2) + body
  }

  /** The fields of a serialized message read back as the action and body
      that built it. */
  lemma SerializeFields(action: u16, body: seq<u8>)
    requires |body| <= MAX_BODY_LENGTH
    ensures var s := Serialize(action, body);
            |s| == HEADER_LEN + |body| && BodyLengthOf(s) == |body| &&
            ActionOf(s) == action && s[BODY_OFFSET..] == body
  {
    var s := Serialize(action, body);
    assert s[BODYLEN_OFFSET..BODYLEN_OFFSET + 2] == ToBytesBE(|body|, 2);
    assert s[ACTION_OFFSET..ACTION_OFFSET + 2] == ToBytesBE(action, 2);
    FromToBytesBE(|body|, 2);
    FromToBytesBE(action, 2);
  }

  /** The status Message::parse returns for the bytes buff, len being |buff|:
      the header is checked first, then the supply of body bytes, then the
      maximum body length. */
  function Classify(buff: seq<u8>): (r: ParseStatus)
    ensures r == InsufficientHeaderBytes <==> |buff| < HEADER_LEN
    ensures r == InsufficientBufferBytes <==>
              |buff| >= HEADER_LEN && BodyLengthOf(buff) > |buff| - HEADER_LEN
    ensures r == Ok <==>
              |buff| >= HEADER_LEN && BodyLengthOf(buff) <= |buff| - HEADER_LEN &&
              BodyLengthOf(buff) <= MAX_BODY_LENGTH
  {
    if |buff| < HEADER_LEN then InsufficientHeaderBytes
    else if BodyLengthOf(buff) > |buff| - HEADER_LEN then InsufficientBufferBytes
    else if BodyLengthOf(buff) > MAX_BODY_LENGTH then BodyLengthExceeded
    else Ok
  }

  /** With a uint16_t length the body-length limit can never be the reason
      for a rejection: a body that fits in the buffer fits in the format. */
  lemma BodyLengthExceededUnreachable(buff: seq<u8>)
    requires |buff| <= MAX_MESSAGE_LENGTH
    ensures Classify(buff) != BodyLengthExceeded
  {
  }

  /** A serialized message, followed by any bytes at all, parses and the
      parsed message is exactly the serialized one. */
  lemma ParseSerialized(action: u16, body: seq<u8>, rest: seq<u8>)
    requires HEADER_LEN + |body| + |rest| <= MAX_MESSAGE_LENGTH
    ensures var buff := Serialize(action, body) + rest;
            Classify(buff) == Ok && buff[..HEADER_LEN + BodyLengthOf(buff)] == Serialize(action, body)
  {
    var s := Serialize(action, body);
    SerializeFields(action, body);
    var buff := s + rest;
    assert buff[BODYLEN_OFFSET..BODYLEN_OFFSET + 2] == s[BODYLEN_OFFSET..BODYLEN_OFFSET + 2];
    assert BodyLengthOf(buff) == |body|;
    assert buff[..|s|] == s;
  }

  /** Action 0x1234 with body AA BB CC is the byte string 00 03 12 34 AA BB CC. */
  lemma SerializeExample()
    ensures Serialize(0x1234, [0xAA, 0xBB, 0xCC]) == [0x00, 0x03, 0x12, 0x34, 0xAA, 0xBB, 0xCC]
  {
  }

  /** The under-supply test as src/Message.cpp:151 writes it: rejects when the
      declared body length is SMALLER than the bytes after the header. */
  function UnderSupplyCheckAsWritten(declared: nat, len: nat): bool
    requires len >= HEADER_LEN
  {
    declared < len - HEADER_LEN
  }

  /** The written test lets a 4-byte buffer that declares a 3-byte body
      through (parse then copies 3 bytes that were never supplied), and
      rejects a well-formed message followed by one extra byte. */
  lemma UnderSupplyCheckAsWrittenIsInverted()
    ensures !UnderSupplyCheckAsWritten(BodyLengthOf([0, 3, 0, 0]), 4)
    ensures Classify([0, 3, 0, 0]) == InsufficientBufferBytes
    ensures var buff := Serialize(0x1234, [0xAA]) + [0];
            UnderSupplyCheckAsWritten(BodyLengthOf(buff), |buff|) && Classify(buff) == Ok
  {
    var buff := Serialize(0x1234, [0xAA]) + [0];
    ParseSerialized(0x1234, [0xAA], [0]);
    SerializeFields(0x1234, [0xAA]);
    assert buff[..HEADER_LEN] == Serialize(0x1234, [0xAA])[..HEADER_LEN];
  }

  /** Writing the length field over bytes whose header came from before
      leaves the action of before and the body bytes of resized. */
  lemma HeaderAfterLengthSet(resized: seq<u8>, after: seq<u8>, bodyLen: u16, before: seq<u8>)
    requires |resized| >= HEADER_LEN && |before| >= HEADER_LEN
    requires resized[..HEADER_LEN] == before[..HEADER_LEN]
    requires after == ToBytesBE(bodyLen, 2) + resized[ACTION_OFFSET..]
    ensures |after| == |resized|
    ensures after[..HEADER_LEN] == ToBytesBE(bodyLen, 2) + before[ACTION_OFFSET..BODY_OFFSET]
    ensures after[BODY_OFFSET..] == resized[BODY_OFFSET..]
  {
    assert resized[ACTION_OFFSET..BODY_OFFSET] == before[ACTION_OFFSET..BODY_OFFSET];
  }

  /** The header written by setBodyData, with the body taken from buff,
      is the declared prefix of buff. */
  lemma ParsedBytes(buff: seq<u8>, declared: nat, header: seq<u8>, body: seq<u8>)
    requires |buff| >= HEADER_LEN + declared
    requires declared == FromBytesBE(buff[BODYLEN_OFFSET..BODYLEN_OFFSET + 2])
    requires header == ToBytesBE(declared, 2) + buff[..HEADER_LEN][ACTION_OFFSET..BODY_OFFSET]
    requires body == buff[HEADER_LEN..HEADER_LEN + declared]
    ensures header + body == buff[..HEADER_LEN + declared]
  {
    var lengthBytes := buff[BODYLEN_OFFSET..BODYLEN_OFFSET + 2];
    assert header == buff[..HEADER_LEN] by {
      ToFromBytesBE(lengthBytes);
      assert buff[..HEADER_LEN][ACTION_OFFSET..BODY_OFFSET] == buff[ACTION_OFFSET..BODY_OFFSET];
      assert buff[..HEADER_LEN] == lengthBytes + buff[ACTION_OFFSET..BODY_OFFSET];
    }
    assert buff[..HEADER_LEN + declared] == buff[..HEADER_LEN] + body;
  }

  class Message {
    /** `_data`: a NetworkBuffer<uint8_t, uint16_t>. */
    const buffer: ExpandingArray

    ghost function Repr(): set<object>
      reads this, buffer
    {
      {this, buffer} + (if buffer.data == null then {} else {buffer.data})
    }

    ghost predicate Valid()
      reads this, buffer
    {
      && buffer.Valid()
      && buffer.indexLimit == INDEX_LIMIT
      && buffer.data != null
      && buffer.length >= HEADER_LEN
    }

    /** getData(): the whole message. */
    function Data(): (s: seq<u8>)
      reads this, buffer, buffer.data
      requires Valid()
      ensures HEADER_LEN <= |s| <= MAX_MESSAGE_LENGTH
    {
      buffer.Contents()
    }

    /** getHeaderData(): the header bytes. */
    function HeaderData(): (s: seq<u8>)
      reads this, buffer, buffer.data
      requires Valid()
      ensures |s| == HEADER_LEN && s == Data()[..HEADER_LEN]
    {
      Data()[..HEADER_LEN]
    }

    /** getBodyData(): the bytes after the header. */
    function BodyData(): (s: seq<u8>)
      reads this, buffer, buffer.data
      requires Valid()
      ensures HeaderData() + s == Data()
    {
      Data()[BODY_OFFSET..]
    }

    /** getMessageLength(): the number of bytes of the message. */
    function GetMessageLength(): (r: u16)
      reads this, buffer, buffer.data
      requires Valid()
      ensures r == |Data()| == HEADER_LEN + |BodyData()|
    {
      buffer.Length()
    }

    /** A new message is exactly the default header. */
    constructor ()
      ensures Valid() && fresh(Repr()) && Data() == DEFAULT_HEADER
    {
      buffer := new ExpandingArray(INDEX_LIMIT, 0);
      new;
      Init();
    }

    /** Message(data, len): the default header followed by the body data. */
    constructor WithBody(body: seq<u8>)
      requires |body| <= MAX_BODY_LENGTH
      ensures Valid() && fresh(Repr()) && Data() == Serialize(0, body)
    {
      buffer := new ExpandingArray(INDEX_LIMIT, 0);
      new;
      Init();
      SetBodyData(body);
      assert Data() == HeaderData() + BodyData();
    }

    /** `_init()`: clear, then make the bytes the default header. */
    method Init()
      requires buffer.Valid() && buffer.indexLimit == INDEX_LIMIT
      modifies buffer, buffer.data
      ensures Valid() && Data() == DEFAULT_HEADER
      ensures buffer.data == old(buffer.data) || fresh(buffer.data)
    {
      buffer.Clear();
      buffer.Resize(HEADER_LEN, false);
      buffer.CopyFrom(DEFAULT_HEADER);
    }

    /** reset(): back to the default header. */
    method Reset()
      requires Valid()
      modifies buffer, buffer.data
      ensures Valid() && Data() == DEFAULT_HEADER
      ensures buffer.data == old(buffer.data) || fresh(buffer.data)
    {
      Init();
    }

    /** getRawBodyLength(). */
    method GetRawBodyLength() returns (r: u16)
      requires Valid()
      ensures r == BodyLengthOf(Data())
    {
      r := NetworkBuffer.GetUInt16(buffer, BODYLEN_OFFSET);
    }

    /** getRawAction(). */
    method GetRawAction() returns (r: u16)
      requires Valid()
      ensures r == ActionOf(Data())
    {
      r := NetworkBuffer.GetUInt16(buffer, ACTION_OFFSET);
    }

    /** setRawBodyLength(len): bytes 0-1 become len, most significant first. */
    method SetRawBodyLength(len: u16)
      requires Valid()
      modifies buffer, buffer.data
      ensures Valid() && (buffer.data == old(buffer.data) || fresh(buffer.data))
      ensures Data() == ToBytesBE(len, 2) + old(Data())[ACTION_OFFSET..]
      ensures BodyLengthOf(Data()) == len && ActionOf(Data()) == ActionOf(old(Data()))
    {
      ghost var before := Data();
      NetworkBuffer.SetUInt16(buffer, len, BODYLEN_OFFSET);
      assert Data() == ToBytesBE(len, 2) + before[ACTION_OFFSET..];
      assert Data()[BODYLEN_OFFSET..BODYLEN_OFFSET + 2] == ToBytesBE(len, 2);
      assert Data()[ACTION_OFFSET..ACTION_OFFSET + 2] == before[ACTION_OFFSET..ACTION_OFFSET + 2];
      FromToBytesBE(len, 2);
    }

    /** setRawAction(action): bytes 2-3 become action, most significant first. */
    method SetRawAction(action: u16)
      requires Valid()
      modifies buffer, buffer.data
      ensures Valid() && (buffer.data == old(buffer.data) || fresh(buffer.data))
      ensures Data() == old(Data())[..ACTION_OFFSET] + ToBytesBE(action, 2) + old(Data())[BODY_OFFSET..]
      ensures ActionOf(Data()) == action && BodyLengthOf(Data()) == BodyLengthOf(old(Data()))
    {
      ghost var before := Data();
      NetworkBuffer.SetUInt16(buffer, action, ACTION_OFFSET);
      assert Data() == before[..ACTION_OFFSET] + ToBytesBE(action, 2) + before[BODY_OFFSET..];
      assert Data()[ACTION_OFFSET..ACTION_OFFSET + 2] == ToBytesBE(action, 2);
      assert Data()[BODYLEN_OFFSET..BODYLEN_OFFSET + 2] == before[BODYLEN_OFFSET..BODYLEN_OFFSET + 2];
      FromToBytesBE(action, 2);
    }

    /** resizeBody(bodyLen, copy): for a body length the format allows, the
        message becomes header + bodyLen bytes, the body-length field says
        bodyLen and the action is kept; with copy the surviving body prefix
        is kept too. A longer body length changes nothing. */
    method ResizeBody(bodyLen: u16, copy: bool := true)
      requires Valid()
      modifies buffer, buffer.data
      ensures Valid() && (buffer.data == old(buffer.data) || fresh(buffer.data))
      ensures bodyLen > MAX_BODY_LENGTH ==> Data() == old(Data())
      ensures bodyLen <= MAX_BODY_LENGTH ==>
                |Data()| == HEADER_LEN + bodyLen &&
                HeaderData() == ToBytesBE(bodyLen, 2) + old(Data())[ACTION_OFFSET..BODY_OFFSET]
      ensures bodyLen <= MAX_BODY_LENGTH && copy ==>
                BodyData()[..Min(bodyLen, |old(BodyData())|)] == old(BodyData())[..Min(bodyLen, |old(BodyData())|)]
    {
      if bodyLen > MAX_BODY_LENGTH {
        return;
      }
      ghost var before := Data();
      ResizeKeepingHeader(HEADER_LEN + bodyLen, copy);
      ghost var resized := Data();
      SetRawBodyLength(bodyLen);
      HeaderAfterLengthSet(resized, Data(), bodyLen, before);
      if copy {
        PrefixKeptPastOffset(resized, before, HEADER_LEN, bodyLen);
      }
    }

    /** The two branches of resizeBody before the length field is written:
        the new length is n and the header bytes survive. */
    method ResizeKeepingHeader(n: nat, copy: bool)
      requires Valid() && HEADER_LEN <= n < INDEX_LIMIT
      modifies buffer, buffer.data
      ensures Valid() && (buffer.data == old(buffer.data) || fresh(buffer.data))
      ensures |Data()| == n && Data()[..HEADER_LEN] == old(Data())[..HEADER_LEN]
      ensures copy ==> Data()[..Min(n, |old(Data())|)] == old(Data())[..Min(n, |old(Data())|)]
    {
      if !copy {
        var headerCopy := new u8[HEADER_LEN];
        buffer.CopyTo(headerCopy, HEADER_LEN);
        ghost var header := headerCopy[..];
        buffer.Resize(n, false);
        buffer.CopyFrom(headerCopy[..]);
        assert Data()[..HEADER_LEN] == header;
      } else {
        buffer.Resize(n, true);
      }
    }

    /** setBodyData(data, len): the body becomes data; the body-length field
        says |data| and the action is kept. */
    method SetBodyData(body: seq<u8>)
      requires Valid() && |body| <= MAX_BODY_LENGTH
      modifies buffer, buffer.data
      ensures Valid() && (buffer.data == old(buffer.data) || fresh(buffer.data))
      ensures HeaderData() == ToBytesBE(|body|, 2) + old(Data())[ACTION_OFFSET..BODY_OFFSET]
      ensures BodyData() == body
    {
      ResizeBody(|body|, true);
      ghost var header := HeaderData();
      buffer.CopyFromAt(body, BODY_OFFSET);
      assert Data() == header + body;
    }

    /** The first step of parse: a new message whose header is copied from
        the buffer. */
    static method FromHeader(header: seq<u8>) returns (msg: Message)
      requires |header| == HEADER_LEN
      ensures fresh(msg.Repr()) && msg.Valid() && msg.Data() == header
    {
      msg := new Message();
      msg.buffer.CopyFrom(header);
      assert msg.Data() == header;
    }

    /** parse(&m, buff, len) with len == |buff|: the status is Classify(buff),
        and on success the new message's bytes are the header and declared
        body taken from buff. On failure no message is returned. */
    static method Parse(buff: seq<u8>) returns (status: ParseStatus, m: Message?)
      requires |buff| <= MAX_MESSAGE_LENGTH
      ensures status == Classify(buff)
      ensures status == Ok <==> m != null
      ensures m != null ==>
                fresh(m.Repr()) && m.Valid() && m.Data() == buff[..HEADER_LEN + BodyLengthOf(buff)]
    {
      if |buff| < HEADER_LEN {
        return InsufficientHeaderBytes, null;
      }
      var msg := FromHeader(buff[..HEADER_LEN]);
      var declared := msg.GetRawBodyLength();
      assert buff[..HEADER_LEN][BODYLEN_OFFSET..BODYLEN_OFFSET + 2] == buff[BODYLEN_OFFSET..BODYLEN_OFFSET + 2];
      // src/Message.cpp:151 tests `declared < len - 4`; the intended test
      // rejects a buffer that holds fewer body bytes than declared.
      if declared > |buff| - HEADER_LEN {
        return InsufficientBufferBytes, null;
      }
      if declared > MAX_BODY_LENGTH {
        assert false;
        return BodyLengthExceeded, null;
      }
      msg.SetBodyData(buff[HEADER_LEN..HEADER_LEN + declared]);
      ParsedBytes(buff, declared, msg.HeaderData(), msg.BodyData());
      assert msg.Data() == msg.HeaderData() + msg.BodyData();
      return Ok, msg;
    }
  }

  /** resizeBody without its copy argument keeps the body: a message
      around body resized to bodyLen has bodyLen body bytes, of which the
      first min(bodyLen, |body|) are those of body. */
  method ResizeBodyKeepsBody(body: seq<u8>, bodyLen: u16) returns (resized: seq<u8>)
    requires |body| <= MAX_BODY_LENGTH && bodyLen <= MAX_BODY_LENGTH
    ensures |resized| == bodyLen && resized[..Min(bodyLen, |body|)] == body[..Min(bodyLen, |body|)]
  {
    var m := new Message.WithBody(body);
    SerializeFields(0, body);
    m.ResizeBody(bodyLen);
    resized := m.BodyData();
  }

  /** A message built by setting an action and a body serializes to those
      fields, and parsing its bytes gives a message with the same action and
      body back. */
  method BuildAndParse(action: u16, body: seq<u8>) returns (bytes: seq<u8>, parsedAction: u16, parsedBody: seq<u8>)
    requires |body| <= MAX_BODY_LENGTH
    ensures bytes == Serialize(action, body)
    ensures parsedAction == action && parsedBody == body
  {
    var m := new Message();
    m.SetRawAction(action);
    m.SetBodyData(body);
    assert m.Data() == m.HeaderData() + m.BodyData();
    bytes := m.Data();
    var status, parsed := Message.Parse(bytes);
    ParseSerialized(action, body, []);
    assert Serialize(action, body) + [] == Serialize(action, body);
    parsedAction := parsed.GetRawAction();
    parsedBody := parsed.BodyData();
    SerializeFields(action, body);
  }
}
