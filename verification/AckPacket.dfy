/** PUBACK, PUBREC, PUBREL and PUBCOMP, MQTT 3.1.1 sections 3.4 to 3.7 (MQTTSerialize_ack, MQTTDeserialize_ack). */
module AckPacket {
  import opened Basics
  import opened RemainingLength
  import opened MqttStrings
  import opened FixedHeader

  datatype Received = Received(kind: nat, dup: nat, packetId: uint16)

  function Wire(kind: nat, dup: byte, packetId: uint16): seq<byte>
    requires kind < 16
  {
    Packet(HeaderByte(kind, dup, if kind == PUBREL then 1 else 0, 0), BigEndian16(packetId))
  }

  /** The bytes of the four acknowledgements (sections 3.4 to 3.7), with the reserved flags of PUBREL. */
  lemma FirstBytes(packetId: uint16)
    ensures var high, low := packetId / 256, packetId % 256;
            && Wire(PUBACK, 0, packetId) == [0x40, 2, high, low] && Wire(PUBREC, 0, packetId) == [0x50, 2, high, low]
            && Wire(PUBREL, 0, packetId) == [0x62, 2, high, low] && Wire(PUBCOMP, 0, packetId) == [0x70, 2, high, low]
  {
    assert Encoding(2) == [2];
  }

  /** What MQTTDeserialize_ack returns: any packet type is accepted, and the caller has to look at it. */
  function Parse(buf: seq<byte>): (r: Parsed<Received>) {
    var header :- ReadByte(buf, 0);
    var (used, remLen) :- ReadLength(buf, 1);
    if remLen < 2 then Rejected(used)
    else
      var id :- ReadInt(buf, 1 + used);
      Parsed(Received(TypeOf(header), DupOf(header), id))
  }

  /** An acknowledgement that was written names the same packet when it is read. */
  lemma RoundTrip(kind: nat, dup: byte, packetId: uint16, rest: seq<byte>)
    requires kind < 16
    ensures Parse(Wire(kind, dup, packetId) + rest) == Parsed(Received(kind, dup, packetId)) <==> dup < 2
  {
    hide HeaderByte, TypeOf, DupOf, BigEndian16, FromBigEndian16, Encoding;
    var header, body := HeaderByte(kind, dup, if kind == PUBREL then 1 else 0, 0), BigEndian16(packetId);
    ReadLengthOfPacket(header, body, rest);
    ReadIntInvertsWrite([header] + Encoding(|body|), packetId, rest);
  }

  /** The number of length bytes doubles as the return code, so an acknowledgement too short for its packet identifier
      is reported with 1, the code for success, exactly when its length field is a single byte. */
  lemma RejectedAsSuccess(buf: seq<byte>)
    requires Parse(buf).Rejected?
    ensures Parse(buf).rc == 1 <==> buf[1] < 128
  {
    assert Parse(buf).rc == Decoding(buf[1..]).0;
  }

  lemma RejectedAsSuccessExample()
    ensures Parse([0x62, 0]) == Rejected(1)
  {
  }

  /** The longest length field and a packet identifier fit eight bytes, so a reader of that many stays within them. */
  lemma NeverOverruns(buf: seq<byte>)
    requires |buf| >= 8
    ensures !Parse(buf).Overrun?
  {
    var r := Decoding(buf[1..]);
    assert r.0 <= MAX_LENGTH_BYTES + 1;
  }

  /** MQTTSerialize_ack. */
  method Serialize(buf: array<byte>, buflen: nat, kind: nat, dup: byte, packetId: uint16) returns (rc: int)
    requires buflen <= buf.Length && kind < 16
    modifies buf
    ensures buflen < 4 ==> rc == MQTTPACKET_BUFFER_TOO_SHORT && buf[..] == old(buf[..])
    ensures buflen >= 4 ==>
              && rc == 4 && buf[..4] == Wire(kind, dup, packetId)
              && forall i :: 4 <= i < buf.Length ==> buf[i] == old(buf[i])
  {
    hide HeaderByte, BigEndian16;
    if buflen < 4 {
      return MQTTPACKET_BUFFER_TOO_SHORT;
    }
    var ptr := WriteFixedHeader(buf, HeaderByte(kind, dup, if kind == PUBREL then 1 else 0, 0), 2);
    ptr := WriteInt(buf, ptr, packetId);
    return ptr;
  }
}
