/** The fixed header of every MQTT packet (MQTT 3.1.1, section 2.2): first byte and remaining length. */
module FixedHeader {
  import opened Basics
  import opened RemainingLength
  import opened MqttStrings

  const CONNECT: nat := 1
  const PUBLISH: nat := 3
  const PUBACK: nat := 4
  const PUBREC: nat := 5
  const PUBREL: nat := 6
  const PUBCOMP: nat := 7
  const SUBSCRIBE: nat := 8

  const MQTTPACKET_BUFFER_TOO_SHORT: int := -2

  /** The header byte as the bit-field union lays it out; each field keeps only the bits it has. */
  function HeaderByte(kind: nat, dup: nat, qos: int, retain: nat): (b: byte)
    requires kind < 16
    ensures TypeOf(b) == kind
    ensures DupOf(b) == dup <==> dup < 2
    ensures QosOf(b) == qos <==> 0 <= qos < 4
    ensures RetainOf(b) == retain <==> retain < 2
  {
    var d, q, r := dup % 2, qos % 4, retain % 2;
    var b := kind * 16 + d * 8 + q * 2 + r;
    assert b / 2 == kind * 8 + d * 4 + q && b / 8 == kind * 2 + d;
    b
  }

  /** Its bits (sections 2.2.1 and 2.2.2): the type in the upper half, then dup, quality of service and retain. */
  lemma HeaderBits(kind: nat, dup: nat, qos: nat, retain: nat)
    requires kind < 16 && dup < 2 && qos < 4 && retain < 2
    ensures HeaderByte(kind, dup, qos, retain) == 0x10 * kind + 8 * dup + 2 * qos + retain
  {
  }

  function TypeOf(b: byte): (t: nat)
    ensures t < 16
  {
    b / 16
  }

  function DupOf(b: byte): nat {
    (b / 8) % 2
  }

  function QosOf(b: byte): nat {
    (b / 2) % 4
  }

  function RetainOf(b: byte): nat {
    b % 2
  }

  /** A whole packet. */
  function Packet(header: byte, body: seq<byte>): (p: seq<byte>)
    ensures |p| == WireSize(|body|)
  {
    [header] + Encoding(|body|) + body
  }

  /** A packet whose length field holds some number has its true length in it exactly when the number is the size of the
      body. */
  lemma TrueLength(header: byte, n: nat, body: seq<byte>)
    ensures [header] + Encoding(n) + body == Packet(header, body) <==> n == |body|
  {
    var declared, packet := [header] + Encoding(n) + body, Packet(header, body);
    if declared == packet {
      assert |Encoding(n)| == |Encoding(|body|)|;
      assert declared[1..1 + |Encoding(n)|] == Encoding(n);
      assert packet[1..1 + |Encoding(n)|] == Encoding(|body|);
    }
    EncodingInjective(n, |body|);
  }

  /** MQTTPacket_decodeBuf at position p: bytes used (as counted by the decoder) and value. */
  function ReadLength(buf: seq<byte>, p: nat): (r: Parsed<(nat, nat)>)
    ensures r.Parsed? ==> r.value.0 > 0
  {
    if p > |buf| || (!Terminated(buf[p..]) && |buf| - p < MAX_LENGTH_BYTES) then Overrun
    else Parsed(Decoding(buf[p..]))
  }

  lemma ReadLengthOfPacket(header: byte, body: seq<byte>, rest: seq<byte>)
    requires |body| <= MAX_REMAINING_LENGTH
    ensures ReadLength(Packet(header, body) + rest, 1) == Parsed((|Encoding(|body|)|, |body|))
  {
    var buf := Packet(header, body) + rest;
    assert buf[1..] == Encoding(|body|) + (body + rest);
    DecodeInvertsEncode(|body|, body + rest);
  }

  /** The first two steps of every serializer: header byte and remaining length. */
  method WriteFixedHeader(buf: array<byte>, header: byte, remLen: nat) returns (ptr: nat)
    requires 1 + |Encoding(remLen)| <= buf.Length
    modifies buf
    ensures ptr == 1 + |Encoding(remLen)|
    ensures buf[..ptr] == [header] + Encoding(remLen)
    ensures forall i :: ptr <= i < buf.Length ==> buf[i] == old(buf[i])
  {
    ptr := WriteChar(buf, 0, header);
    var n := Encode(buf, ptr, remLen);
    assert buf[..ptr + n] == buf[..ptr] + buf[ptr..ptr + n];
    ptr := ptr + n;
  }
}
