/** Reading and writing the fields packets are made of: bytes, 16-bit integers and strings (MQTTPacket.c). */
module MqttStrings {
  import opened Basics

  /** MQTTString: a C string pointer and a counted string, each possibly null. */
  datatype MqttString = MqttString(cstring: Option<seq<byte>>, lenstring: Option<seq<byte>>) {

    function LenstringLen(): nat {
      if lenstring.Some? then |lenstring.value| else 0
    }

    /** Whether one of the two pointers is set (the test the connect serializer makes). */
    predicate Present() {
      cstring.Some? || lenstring.Some?
    }

    /** MQTTstrlen prefers the C string... */
    function Strlen(): nat {
      if cstring.Some? then |cstring.value| else LenstringLen()
    }

    /** ... while writeMQTTString prefers a non-empty counted string. */
    function Content(): seq<byte> {
      if LenstringLen() > 0 then lenstring.value
      else if cstring.Some? then cstring.value
      else []
    }

    /** Only one of the two is used. */
    predicate OneForm() {
      cstring.None? || LenstringLen() == 0
    }

    /** The length the length computation predicts is the length that is written. */
    predicate Measured() {
      Strlen() == |Content()|
    }

    lemma MeasuredExactly()
      ensures Measured() <==> OneForm() || |cstring.value| == |lenstring.value|
      ensures OneForm() ==> Measured()
    {
    }
  }

  /** The wire form of a string; writeInt keeps only sixteen bits of the length. */
  function Utf(s: seq<byte>): (w: seq<byte>)
    ensures |w| == 2 + |s|
  {
    BigEndian16(|s|) + s
  }

  /** readMQTTLenString at position p of a buffer whose data is said to end at end: the string and the
      position after it. */
  function ReadLenString(buf: seq<byte>, p: nat, end: int): (r: Parsed<(seq<byte>, nat)>)
    ensures r.Parsed? ==> r.value.1 == p + 2 + |r.value.0| <= |buf| && r.value.1 <= end
  {
    if end - p <= 1 then Rejected(0)
    else if p + 2 > |buf| then Overrun
    else
      var len := FromBigEndian16(buf[p..p + 2]);
      if p + 2 + len > end then Rejected(0)
      else if p + 2 + len > |buf| then Overrun
      else Parsed((buf[p + 2..p + 2 + len], p + 2 + len))
  }

  function ReadByte(buf: seq<byte>, p: nat): (r: Parsed<byte>) {
    if p < |buf| then Parsed(buf[p]) else Overrun
  }

  function ReadInt(buf: seq<byte>, p: nat): (r: Parsed<nat>) {
    if p + 2 <= |buf| then Parsed(FromBigEndian16(buf[p..p + 2])) else Overrun
  }

  /** A string that was written is read back, exactly when its length fits the sixteen bits it is given. */
  lemma ReadInvertsWrite(before: seq<byte>, s: seq<byte>, after: seq<byte>, end: int)
    requires |before| + 2 + |s| <= end
    ensures ReadLenString(before + Utf(s) + after, |before|, end) == Parsed((s, |before| + 2 + |s|))
            <==> |s| <= 0xFFFF
  {
    var buf, p, n := before + Utf(s) + after, |before|, BigEndian16(|s|);
    assert buf == before + n + (s + after);
    assert buf[p..p + 2] == n;
    assert buf == (before + n) + s + after;
    assert buf[p + 2..p + 2 + |s|] == s;
  }

  lemma ReadIntInvertsWrite(before: seq<byte>, n: nat, after: seq<byte>)
    ensures ReadInt(before + BigEndian16(n) + after, |before|) == Parsed(n) <==> n <= 0xFFFF
  {
    assert (before + BigEndian16(n) + after)[|before|..|before| + 2] == BigEndian16(n);
  }

  /** memcpy into the packet under construction, advancing the pointer. */
  method WriteBytes(buf: array<byte>, ptr: nat, s: seq<byte>) returns (next: nat)
    requires ptr + |s| <= buf.Length
    modifies buf
    ensures next == ptr + |s|
    ensures buf[..next] == old(buf[..ptr]) + s
    ensures forall i :: next <= i < buf.Length ==> buf[i] == old(buf[i])
  {
    forall i | 0 <= i < |s| {
      buf[ptr + i] := s[i];
    }
    next := ptr + |s|;
  }

  method WriteChar(buf: array<byte>, ptr: nat, c: byte) returns (next: nat)
    requires ptr < buf.Length
    modifies buf
    ensures next == ptr + 1
    ensures buf[..next] == old(buf[..ptr]) + [c]
    ensures forall i :: next <= i < buf.Length ==> buf[i] == old(buf[i])
  {
    buf[ptr] := c;
    next := ptr + 1;
  }

  method WriteInt(buf: array<byte>, ptr: nat, n: nat) returns (next: nat)
    requires ptr + 2 <= buf.Length
    modifies buf
    ensures next == ptr + 2
    ensures buf[..next] == old(buf[..ptr]) + BigEndian16(n)
    ensures forall i :: next <= i < buf.Length ==> buf[i] == old(buf[i])
  {
    next := WriteChar(buf, ptr, (n / 256) % 256);
    next := WriteChar(buf, next, n % 256);
  }

  method WriteMqttString(buf: array<byte>, ptr: nat, s: MqttString) returns (next: nat)
    requires ptr + 2 + |s.Content()| <= buf.Length
    modifies buf
    ensures next == ptr + 2 + |s.Content()|
    ensures buf[..next] == old(buf[..ptr]) + Utf(s.Content())
    ensures forall i :: next <= i < buf.Length ==> buf[i] == old(buf[i])
  {
    if s.LenstringLen() > 0 {
      next := WriteInt(buf, ptr, s.LenstringLen());
      next := WriteBytes(buf, next, s.lenstring.value);
    } else if s.cstring.Some? {
      next := WriteInt(buf, ptr, |s.cstring.value|);
      next := WriteBytes(buf, next, s.cstring.value);
    } else {
      next := WriteInt(buf, ptr, 0);
    }
  }

  /** A string at the start of the last bytes of a buffer is rejected, or read within it; never past it. */
  lemma ReadWithin(before: seq<byte>, body: seq<byte>)
    ensures var buf, p := before + body, |before|;
            var r := ReadLenString(buf, p, |buf|);
            if |body| < 2 || 2 + FromBigEndian16(body[..2]) > |body| then r == Rejected(0)
            else var n := FromBigEndian16(body[..2]); r == Parsed((body[2..2 + n], p + 2 + n))
  {
    var buf, p := before + body, |before|;
    if |body| >= 2 {
      assert buf[p..p + 2] == body[..2];
      var n := FromBigEndian16(body[..2]);
      if 2 + n <= |body| {
        assert buf[p + 2..p + 2 + n] == body[2..2 + n];
      }
    }
  }
}
