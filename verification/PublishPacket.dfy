/** PUBLISH, MQTT 3.1.1 section 3.3 (MQTTSerializePublish.c, MQTTDeserializePublish.c). */
module PublishPacket {
  import opened Basics
  import opened RemainingLength
  import opened MqttStrings
  import opened FixedHeader

  datatype Publish = Publish(dup: byte, qos: int, retained: byte, packetId: uint16, topic: MqttString,
                             payload: seq<byte>)

  /** What a reader is given; the packet identifier is left alone at QoS 0. */
  datatype Received = Received(dup: nat, qos: nat, retained: nat, packetId: Option<uint16>, topic: seq<byte>,
                               payload: seq<byte>)

  /** MQTTSerialize_publishLength. */
  function PublishLength(p: Publish): nat {
    2 + p.topic.Strlen() + |p.payload| + if p.qos > 0 then 2 else 0
  }

  /** The packet identifier, absent at QoS 0. */
  function IdField(p: Publish): seq<byte> {
    if p.qos > 0 then BigEndian16(p.packetId) else []
  }

  function Body(p: Publish): (b: seq<byte>)
    ensures p.topic.Measured() ==> |b| == PublishLength(p)
  {
    Utf(p.topic.Content()) + (IdField(p) + p.payload)
  }

  function Wire(p: Publish): seq<byte> {
    Packet(HeaderByte(PUBLISH, p.dup, p.qos, p.retained), Body(p))
  }

  /** The fields have no more bits than the packet has room for. */
  predicate Representable(p: Publish) {
    p.dup < 2 && 0 <= p.qos < 4 && p.retained < 2 && |p.topic.Content()| <= 0xFFFF
  }

  function Fields(p: Publish): Received
    requires Representable(p)
  {
    Received(p.dup, p.qos, p.retained, if p.qos > 0 then Some(p.packetId) else None, p.topic.Content(), p.payload)
  }

  /** What MQTTDeserialize_publish returns for the bytes in buf. */
  function Parse(buf: seq<byte>): (r: Parsed<Received>) {
    var header :- ReadByte(buf, 0);
    if TypeOf(header) != PUBLISH then Rejected(0)
    else
      var (used, remLen) :- ReadLength(buf, 1);
      var end := 1 + used + remLen;
      var (topic, p) :- ReadLenString(buf, 1 + used, end).Leaving(used);
      var (id, q) :- ReadPacketId(buf, p, QosOf(header));
      if q <= end <= |buf| then
        Parsed(Received(DupOf(header), QosOf(header), RetainOf(header), id, topic, buf[q..end]))
      else
        Overrun  // the payload handed out is not inside the buffer
  }

  function ReadPacketId(buf: seq<byte>, p: nat, qos: nat): (r: Parsed<(Option<uint16>, nat)>)
    ensures r.Parsed? ==> p <= r.value.1
  {
    if qos == 0 then Parsed((None, p))
    else
      var id :- ReadInt(buf, p);
      Parsed((Some(id), p + 2))
  }

  /** The fixed header and the topic of a written publish as the reader finds them. */
  lemma TopicReadBack(p: Publish, rest: seq<byte>)
    requires |Body(p)| <= MAX_REMAINING_LENGTH
    ensures var buf, used := Wire(p) + rest, |Encoding(|Body(p)|)|;
            && ReadLength(buf, 1) == Parsed((used, |Body(p)|))
            && (ReadLenString(buf, 1 + used, 1 + used + |Body(p)|)
                == Parsed((p.topic.Content(), 3 + used + |p.topic.Content()|))
                <==> |p.topic.Content()| <= 0xFFFF)
  {
    hide HeaderByte, BigEndian16, FromBigEndian16, Encoding, Decoding, ReadLenString, IdField, Utf;
    var header, body := HeaderByte(PUBLISH, p.dup, p.qos, p.retained), Body(p);
    ReadLengthOfPacket(header, body, rest);
    var before, topic, tail := [header] + Encoding(|body|), p.topic.Content(), IdField(p) + p.payload;
    Regroup(before, Utf(topic), tail, rest);
    ReadInvertsWrite(before, topic, tail + rest, |before| + |body|);
  }

  lemma TailReadBack(before: seq<byte>, p: Publish, rest: seq<byte>)
    requires p.qos >= 0
    ensures var buf, q := before + (IdField(p) + p.payload) + rest, |before| + |IdField(p)|;
            && ReadPacketId(buf, |before|, p.qos) == Parsed((if p.qos > 0 then Some(p.packetId) else None, q))
            && buf[q..q + |p.payload|] == p.payload
  {
    Regroup(before, IdField(p), p.payload, rest);
    Slice(before + IdField(p), p.payload, rest);
    if p.qos > 0 {
      ReadIntInvertsWrite(before, p.packetId, p.payload + rest);
    }
  }

  /** A publish that was written is read back with every field unchanged, whatever follows it in the buffer,
      exactly when its fields fit the bits they are given. */
  lemma RoundTrip(p: Publish, rest: seq<byte>)
    requires |Body(p)| <= MAX_REMAINING_LENGTH
    ensures Representable(p) ==> Parse(Wire(p) + rest) == Parsed(Fields(p))
    ensures !Representable(p) ==> forall r :: Parse(Wire(p) + rest) == Parsed(r) ==>
                                    || (r.dup, r.qos, r.retained) != (p.dup, p.qos, p.retained)
                                    || r.topic != p.topic.Content()
  {
    hide HeaderByte, TypeOf, DupOf, QosOf, RetainOf, BigEndian16, FromBigEndian16;
    TopicReadBack(p, rest);
    if Representable(p) {
      var start := [HeaderByte(PUBLISH, p.dup, p.qos, p.retained)] + Encoding(|Body(p)|);
      var topic := Utf(p.topic.Content());
      TailReadBack(start + topic, p, rest);
      Regroup(start, topic, IdField(p) + p.payload, rest);
    }
  }

  /** The number of length bytes doubles as the return code, so a publish rejected for its topic is reported
      with 1, the code for success, exactly when its length field is a single byte. */
  lemma RejectedAsSuccess(buf: seq<byte>)
    requires Parse(buf).Rejected?
    ensures Parse(buf).rc == 1 <==> TypeOf(buf[0]) == PUBLISH && buf[1] < 128
  {
    if TypeOf(buf[0]) == PUBLISH {
      assert Parse(buf).rc == Decoding(buf[1..]).0;
    }
  }

  lemma RejectedAsSuccessExample()
    ensures Parse([0x30, 0]) == Rejected(1)
  {
  }

  /** The reader never looks at the length of its buffer.  On a buffer that holds exactly one packet it reads past the
      end exactly when the topic leaves no room for the packet identifier that the quality of service calls for. */
  lemma OverrunsExactly(header: byte, body: seq<byte>)
    requires |body| <= MAX_REMAINING_LENGTH
    ensures Parse(Packet(header, body)).Overrun? <==>
              && TypeOf(header) == PUBLISH && QosOf(header) > 0 && |body| >= 2
              && var n := FromBigEndian16(body[..2]); 2 + n <= |body| < 2 + n + 2
  {
    hide TypeOf, QosOf, DupOf, RetainOf, FromBigEndian16, Encoding, Decoding, ReadLenString;
    var buf, start := Packet(header, body), [header] + Encoding(|body|);
    ReadLengthOfPacket(header, body, []);
    assert buf + [] == buf && buf == start + body;
    ReadWithin(start, body);
  }

  /** A whole publish is rejected exactly for its type or when its topic does not fit into it; the code is 0 for the
      type and otherwise the number of length bytes. */
  lemma RejectedExactly(header: byte, body: seq<byte>)
    requires |body| <= MAX_REMAINING_LENGTH
    ensures var r := Parse(Packet(header, body));
            && (r.Rejected? <==> TypeOf(header) != 3 || |body| < 2 || 2 + FromBigEndian16(body[..2]) > |body|)
            && (r.Rejected? ==> r.rc == if TypeOf(header) != 3 then 0 else |Encoding(|body|)|)
  {
    hide TypeOf, QosOf, DupOf, RetainOf, FromBigEndian16, Encoding, Decoding, ReadLenString;
    var buf, start := Packet(header, body), [header] + Encoding(|body|);
    ReadLengthOfPacket(header, body, []);
    assert buf + [] == buf && buf == start + body;
    ReadWithin(start, body);
  }

  /** A publish of quality of service 1 with an empty topic and nothing behind it. */
  lemma OverrunExample()
    ensures Parse([0x32, 2, 0, 0]).Overrun?
  {
    assert [0x32, 2, 0, 0] == Packet(0x32, [0, 0]);
    OverrunsExactly(0x32, [0, 0]);
  }

  /** What is written: the length field holds the predicted length. */
  function Written(p: Publish): seq<byte> {
    [HeaderByte(PUBLISH, p.dup, p.qos, p.retained)] + Encoding(PublishLength(p)) + Body(p)
  }

  /** The bytes of a publish (section 3.3). */
  lemma Layout(p: Publish)
    requires Representable(p)
    ensures var topic := p.topic.Content();
            var body := [|topic| / 256, |topic| % 256] + topic
                        + (if p.qos > 0 then [p.packetId / 256, p.packetId % 256] else []) + p.payload;
            && Written(p) == [0x30 + 8 * p.dup + 2 * p.qos + p.retained] + Encoding(PublishLength(p)) + body
            && Wire(p) == [0x30 + 8 * p.dup + 2 * p.qos + p.retained] + Encoding(|body|) + body
  {
    hide HeaderByte, Encoding, MqttString.Content;
    HeaderBits(PUBLISH, p.dup, p.qos, p.retained);
    var topic := p.topic.Content();
    assert Body(p) == [|topic| / 256, |topic| % 256] + topic
                      + (if p.qos > 0 then [p.packetId / 256, p.packetId % 256] else []) + p.payload;
  }

  /** The prediction goes by the C string and the writing by the counted string, so it is off by their difference.  The
      packet stays within what MQTTPacket_len asks for exactly when the difference is not more than the slack there,
      and has its true length in it exactly when there is none. */
  lemma WrittenSize(p: Publish)
    ensures |Written(p)| == WireSize(PublishLength(p)) + |p.topic.Content()| - p.topic.Strlen()
    ensures PublishLength(p) <= MAX_REMAINING_LENGTH ==>
              (|Written(p)| <= PacketLen(PublishLength(p))
               <==> |p.topic.Content()| <= p.topic.Strlen() + Slack(PublishLength(p)))
    ensures Written(p) == Wire(p) <==> p.topic.OneForm() || |p.topic.cstring.value| == |p.topic.lenstring.value|
    ensures Written(p) == Wire(p) <==> p.topic.Measured()
  {
    hide HeaderByte, Encoding, BigEndian16, PacketLen, Slack;
    p.topic.MeasuredExactly();
    TrueLength(HeaderByte(PUBLISH, p.dup, p.qos, p.retained), PublishLength(p), Body(p));
  }

  /** A topic with both forms set that passes the size test for eight bytes and takes eleven. */
  lemma PastTheBufferExample()
    ensures var topic := MqttString(Some([0x61]), Some([0x61, 0x62, 0x63, 0x64, 0x65, 0x66]));
            var p := Publish(0, 0, 0, 0, topic, [0x21]);
            !topic.OneForm() && PacketLen(PublishLength(p)) <= 8 && |Written(p)| == 11
  {
    var topic := MqttString(Some([0x61]), Some([0x61, 0x62, 0x63, 0x64, 0x65, 0x66]));
    WrittenSize(Publish(0, 0, 0, 0, topic, [0x21]));
    SizeClasses(4);
  }

  /** MQTTSerialize_publish, with memory behind the buffer for what it writes past it. */
  method Serialize(buf: array<byte>, buflen: nat, p: Publish) returns (rc: int)
    requires buflen <= buf.Length
    requires PacketLen(PublishLength(p)) <= buflen ==> |Written(p)| <= buf.Length
    modifies buf
    ensures PacketLen(PublishLength(p)) > buflen ==> rc == MQTTPACKET_BUFFER_TOO_SHORT && buf[..] == old(buf[..])
    ensures PacketLen(PublishLength(p)) <= buflen ==>
              && rc == |Written(p)| && buf[..rc] == Written(p)
              && forall i :: rc <= i < buf.Length ==> buf[i] == old(buf[i])
    ensures rc > 0 && p.topic.Measured() && PublishLength(p) <= MAX_REMAINING_LENGTH ==>
              rc <= buflen && buf[..rc] == Wire(p)
  {
    hide HeaderByte, Encoding, BigEndian16, Wire, Utf, MqttString.Content;
    var remLen := PublishLength(p);
    WrittenSize(p);
    if PacketLen(remLen) > buflen {
      return MQTTPACKET_BUFFER_TOO_SHORT;
    }
    var ptr := WriteFixedHeader(buf, HeaderByte(PUBLISH, p.dup, p.qos, p.retained), remLen);
    ghost var before := buf[..ptr];
    ptr := WriteMqttString(buf, ptr, p.topic);
    if p.qos > 0 {
      ptr := WriteInt(buf, ptr, p.packetId);
    }
    ptr := WriteBytes(buf, ptr, p.payload);
    assert buf[..ptr] == before + Body(p);
    return ptr;
  }

  /** MQTTDeserialize_publish. */
  method Deserialize(buf: seq<byte>) returns (r: Parsed<Received>)
    ensures r == Parse(buf)
  {
    var header :- ReadByte(buf, 0);
    if TypeOf(header) != PUBLISH {
      return Rejected(0);
    }
    var length :- ReadLength(buf, 1);
    var curdata := 1 + length.0;
    var enddata := curdata + length.1;
    var topic :- ReadLenString(buf, curdata, enddata).Leaving(length.0);
    curdata := topic.1;
    var packetId := None;
    if QosOf(header) > 0 {
      var id :- ReadInt(buf, curdata);
      packetId, curdata := Some(id), curdata + 2;
    }
    if enddata < curdata || enddata > |buf| {
      return Overrun;
    }
    return Parsed(Received(DupOf(header), QosOf(header), RetainOf(header), packetId, topic.0,
                           buf[curdata..enddata]));
  }
}
