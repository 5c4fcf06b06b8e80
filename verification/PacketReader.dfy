/** Reading one packet off a stream: the blocking reader and the resumable one (MQTTPacket.c). */
module PacketReader {
  import opened Basics
  import opened RemainingLength
  import opened MqttStrings
  import opened FixedHeader

  const MQTTPACKET_READ_ERROR: int := -1

  /** The stream starts with a whole packet whose length field is well formed. */
  predicate Framed(s: seq<byte>) {
    s != [] && Terminated(s[1..]) && PacketSize(s) <= |s|
  }

  /** Number of bytes of the length field. */
  function FieldSize(s: seq<byte>): nat
    requires s != []
  {
    Decoding(s[1..]).0
  }

  function BodySize(s: seq<byte>): nat
    requires s != []
  {
    Decoding(s[1..]).1
  }

  function PacketSize(s: seq<byte>): nat
    requires s != []
  {
    1 + FieldSize(s) + BodySize(s)
  }

  /** Header byte and re-encoded length field, which every reader puts into its buffer first. */
  function Header(s: seq<byte>): seq<byte>
    requires s != []
  {
    [s[0]] + Encoding(BodySize(s))
  }

  /** What a reader leaves in its buffer. */
  function Contents(s: seq<byte>): (c: seq<byte>)
    requires Framed(s)
    ensures |c| == WireSize(BodySize(s))
  {
    Header(s) + s[1 + FieldSize(s)..PacketSize(s)]
  }

  /** A packet as the serializers write it stands first in a stream whatever follows it, and a reader leaves just that
      packet in its buffer, if it has room for it. */
  lemma PacketIsFramed(header: byte, body: seq<byte>, rest: seq<byte>)
    requires |body| <= MAX_REMAINING_LENGTH
    ensures var packet := Packet(header, body);
            && Framed(packet + rest) && Contents(packet + rest) == packet
            && (packet + rest)[PacketSize(packet + rest)..] == rest
            && forall buflen: nat :: Fits(packet + rest, buflen) <==> |packet| <= buflen
  {
    hide Encoding, Decoding, Terminated;
    var s := Packet(header, body) + rest;
    assert s[1..] == Encoding(|body|) + (body + rest);
    DecodeInvertsEncode(|body|, body + rest);
  }

  predicate Fits(s: seq<byte>, buflen: nat)
    requires s != []
  {
    WireSize(BodySize(s)) <= buflen
  }

  /** MQTTPacket_read over a source that always delivers what it is asked for.  Header byte and length field are written
      before the length of the buffer is looked at, so there has to be memory for them whatever it is. */
  method Read(buf: array<byte>, buflen: nat, stream: seq<byte>) returns (rc: int, rest: seq<byte>)
    requires Framed(stream) && buflen <= buf.Length && |Header(stream)| <= buf.Length
    modifies buf
    ensures !Fits(stream, buflen) ==> rc == MQTTPACKET_READ_ERROR && buf[..|Header(stream)|] == Header(stream)
    ensures Fits(stream, buflen) ==>
              && rc == TypeOf(stream[0])
              && buf[..|Contents(stream)|] == Contents(stream)
              && rest == stream[PacketSize(stream)..]
  {
    hide Encoding, Decoding, Terminated;
    var len := WriteChar(buf, 0, stream[0]);
    rest := stream[1..];
    var used, remLen := Decode(rest);
    DecodingReadsOnlyTheField(rest, [], MAX_LENGTH_BYTES);
    rest := rest[used..];
    var n := Encode(buf, 1, remLen);
    len := len + n;
    assert buf[..len] == [stream[0]] + buf[1..1 + n];
    if remLen + len > buflen {
      return MQTTPACKET_READ_ERROR, rest;
    }
    len := WriteBytes(buf, len, rest[..remLen]);
    rest := rest[remLen..];
    assert stream[1 + used..PacketSize(stream)] == stream[1..][used..][..remLen];
    rc := TypeOf(buf[0]);
  }

  /** The schedule of a non-blocking source: for each coming call of getfn, the number of bytes it can hand
      over at most; 0 is "call again", and so is every call after the end of the schedule. */
  type Schedule = seq<nat>

  /** How a part of a packet fares with a schedule: it is completed and so much of the schedule is left, it takes one
      call of getfn too many, or the schedule ends before. */
  datatype Left = Done(rest: Schedule) | Late | Ended

  /** The length field, of which need bytes are missing after calls calls of getfn; more says whether the last of them
      delivered a byte.  The call after the fourth comes at once after a byte, else only when the reader is polled
      again. */
  function FieldLeft(grants: Schedule, need: nat, calls: nat, more: bool): Left
    decreases |grants|
  {
    if need == 0 then Done(grants)
    else if calls >= MAX_LENGTH_BYTES then (if more || grants != [] then Late else Ended)
    else if grants == [] then Ended
    else FieldLeft(grants[1..], if grants[0] > 0 then need - 1 else need, calls + 1, grants[0] > 0)
  }

  /** The header byte: "call again" is harmless before it. */
  function HeaderLeft(grants: Schedule): Left {
    if grants == [] then Ended else if grants[0] == 0 then HeaderLeft(grants[1..]) else Done(grants[1..])
  }

  /** The rest of a packet, in as many pieces as it comes. */
  function BodyLeft(grants: Schedule, remLen: nat): Left
    decreases |grants|
  {
    if remLen == 0 then Done(grants)
    else if grants == [] then Ended
    else BodyLeft(grants[1..], remLen - Min(grants[0], remLen))
  }

  /** Header byte and length field. */
  function PrefixLeft(grants: Schedule, field: nat): Left {
    var h := HeaderLeft(grants);
    if h.Done? then FieldLeft(h.rest, field, 0, false) else h
  }

  function ThenBody(l: Left, body: nat): Left {
    if l.Done? then BodyLeft(l.rest, body) else l
  }

  /** Calls of getfn that will deliver something. */
  function Deliveries(grants: Schedule): nat {
    if grants == [] then 0 else (if grants[0] > 0 then 1 else 0) + Deliveries(grants[1..])
  }

  /** The state of a decoder that has read k - 1 bytes of the length field of the packet at the start of s. */
  ghost predicate InField(s: seq<byte>, k: nat, len: nat, remLen: nat, multiplier: nat)
    requires s != []
  {
    && 1 <= k <= FieldSize(s) && k <= |s|
    && k - 1 <= len <= MAX_LENGTH_BYTES
    && k - 1 < MAX_LENGTH_BYTES
    && Terminated(s[k..], MAX_LENGTH_BYTES - (k - 1))
    && FieldSize(s) == k - 1 + Decoding(s[k..], MAX_LENGTH_BYTES - (k - 1)).0
    && (len == 0 || multiplier == Power128(k - 1))
    && BodySize(s) == (if len == 0 then 0 else remLen) + Shifted(Decoding(s[k..], MAX_LENGTH_BYTES - (k - 1)).1, k - 1)
  }

  /** A decoder about to read the next byte of the field. */
  ghost predicate Decoder(s: seq<byte>, stream: seq<byte>, len: nat, remLen: nat, multiplier: nat)
    requires s != []
  {
    var k := |s| - |stream|;
    && 1 <= k && stream == s[k..]
    && InField(s, k, len, remLen, multiplier) && multiplier == Power128(k - 1)
    && (len == 0 ==> remLen == 0)
  }

  /** A decoder that has read the last byte of the field. */
  ghost predicate FieldRead(s: seq<byte>, stream: seq<byte>, remLen: nat)
    requires s != []
  {
    |stream| + 1 + FieldSize(s) == |s| && stream == s[1 + FieldSize(s)..] && remLen == BodySize(s)
  }

  /** How the field fares from here. */
  ghost function TimeLeft(s: seq<byte>, stream: seq<byte>, grants: Schedule, len: nat, more: bool): Left
    requires s != []
  {
    var k := |s| - |stream|;
    if 1 <= k <= FieldSize(s) + 1 then FieldLeft(grants, FieldSize(s) + 1 - k, len, more) else Late
  }

  lemma OutOfAttempts(s: seq<byte>, stream: seq<byte>, len: nat, remLen: nat, multiplier: nat, grants: Schedule,
                      more: bool)
    requires s != [] && Decoder(s, stream, len, remLen, multiplier)
    ensures len <= MAX_LENGTH_BYTES
    ensures len == MAX_LENGTH_BYTES ==> !TimeLeft(s, stream, grants, len, more).Done?
    ensures len == MAX_LENGTH_BYTES && (more || grants != []) ==> TimeLeft(s, stream, grants, len, more) == Late
  {
  }

  /** One byte further, or not: c is what getfn returned. */
  lemma DecoderStep(s: seq<byte>, stream: seq<byte>, len: nat, remLen: nat, multiplier: nat, grants: Schedule,
                    more: bool, c: seq<byte>)
    requires s != [] && Decoder(s, stream, len, remLen, multiplier) && len < MAX_LENGTH_BYTES
    requires c == if grants == [] || grants[0] == 0 then [] else stream[..Min(1, |stream|)]
    ensures var later := if grants == [] then [] else grants[1..];
            && stream != []
            && (c == [] ==>
                  && Decoder(s, stream, len + 1, remLen, multiplier)
                  && TimeLeft(s, stream, later, len + 1, false) == TimeLeft(s, stream, grants, len, more))
            && (c != [] && c[0] >= 128 ==>
                  && Decoder(s, stream[1..], len + 1, AddDigit(remLen, c[0], multiplier), multiplier * 128)
                  && TimeLeft(s, stream[1..], later, len + 1, true) == TimeLeft(s, stream, grants, len, more))
            && (c != [] && c[0] < 128 ==>
                  && FieldRead(s, stream[1..], AddDigit(remLen, c[0], multiplier))
                  && TimeLeft(s, stream, grants, len, more) == Done(later))
  {
    hide Decoding, Terminated, Shifted, AddDigit;
    FieldAdvances(s, |s| - |stream|, len + 1, remLen, multiplier);
    assert grants != [] ==> FieldLeft(grants[1..], 0, len + 1, true) == Done(grants[1..]);
  }

  lemma FieldAdvances(s: seq<byte>, k: nat, len: nat, remLen: nat, multiplier: nat)
    requires s != [] && len > 0 && InField(s, k, len - 1, remLen, multiplier) && multiplier == Power128(k - 1)
    requires len == 1 ==> remLen == 0
    requires len <= MAX_LENGTH_BYTES
    ensures k < |s| && multiplier * 128 == Power128(k)
    ensures InField(s, k, len, remLen, multiplier)
    ensures s[k] < 128 ==> k == FieldSize(s) && BodySize(s) == AddDigit(remLen, s[k], multiplier)
    ensures s[k] >= 128 ==> InField(s, k + 1, len, AddDigit(remLen, s[k], multiplier), multiplier * 128)
  {
    hide Decoding, Terminated, Shifted;
    var attempts := MAX_LENGTH_BYTES - (k - 1);
    FieldUnfolds(s[k..], attempts);
    var digit: nat := if s[k] < 128 then s[k] else s[k] - 128;
    NextDigit(s[k..], attempts, k - 1, digit);
    assert s[k..][1..] == s[k + 1..];
  }

  /** What a byte of the length field adds to the value. */
  function AddDigit(sum: nat, c: byte, multiplier: nat): nat {
    var digit: nat := if c < 128 then c else c - 128;
    sum + digit * multiplier
  }

  lemma FieldUnfolds(t: seq<byte>, attempts: nat)
    requires Terminated(t, attempts)
    ensures t != [] && attempts > 0
    ensures t[0] < 128 ==> Decoding(t, attempts).0 == 1
    ensures t[0] >= 128 ==>
              && attempts > 1 && Terminated(t[1..], attempts - 1)
              && Decoding(t, attempts).0 == 1 + Decoding(t[1..], attempts - 1).0
  {
  }

  /** MQTTTransport, with the source behind its getfn: the bytes still to come and the schedule. */
  class Transport {
    var state: nat
    var len: nat
    var remLen: nat
    var multiplier: nat
    var stream: seq<byte>
    var grants: Schedule

    constructor (stream: seq<byte>, grants: Schedule)
      ensures state == 0 && this.stream == stream && this.grants == grants
    {
      state, len, remLen, multiplier := 0, 0, 0, 1;
      this.stream, this.grants := stream, grants;
    }

    /** getfn: up to count bytes, none for "call again". */
    method Get(count: nat) returns (bytes: seq<byte>)
      modifies `stream, `grants
      ensures |bytes| == if old(grants) == [] then 0 else Min(old(grants[0]), Min(count, old(|stream|)))
      ensures bytes == old(stream)[..|bytes|] && stream == old(stream)[|bytes|..]
      ensures grants == if old(grants) == [] then [] else old(grants)[1..]
      ensures count > 0 && old(|stream|) > 0 ==> old(Deliveries(grants)) - Deliveries(grants) <= |bytes|
    {
      if grants == [] {
        return [];
      }
      var n := Min(grants[0], Min(count, |stream|));
      bytes, stream, grants := stream[..n], stream[n..], grants[1..];
    }

    /** Bytes of the packet at the start of s that were read so far. */
    ghost function Consumed(s: seq<byte>): int
      reads `stream
    {
      |s| - |stream|
    }

    /** How far the transport is with the packet at the start of s. */
    ghost predicate Progress(s: seq<byte>, buf: array<byte>, buflen: nat)
      requires Framed(s)
      reads this, buf
    {
      && |Header(s)| <= buflen <= buf.Length
      && Reading(s) && state <= 2
      && (state == 0 ==> Consumed(s) == 0)
      && (state == 1 ==> buf[0] == s[0] && InField(s, Consumed(s), len, remLen, multiplier))
      && (state == 2 ==>
            && Fits(s, buflen) && (remLen > 0 || BodySize(s) == 0)
            && len <= buf.Length && InBody(s, Consumed(s), remLen, buf[..len]))
    }

    ghost predicate Reading(s: seq<byte>)
      reads `stream
    {
      0 <= Consumed(s) && stream == s[Consumed(s)..]
    }

    /** How header byte and length field fare, as far as they are not read yet. */
    ghost function PrefixRest(s: seq<byte>): Left
      requires Framed(s)
      reads this
    {
      if state == 0 then PrefixLeft(grants, FieldSize(s))
      else if state == 1 then TimeLeft(s, stream, grants, len, false) else Done(grants)
    }

    /** Whether the length field is (or will be, as far as the schedule goes) read in time. */
    ghost predicate InTime(s: seq<byte>)
      requires Framed(s)
      reads this
    {
      PrefixRest(s).Done?
    }

    /** How the packet fares. */
    ghost function PacketRest(s: seq<byte>): Left
      requires Framed(s)
      reads this
    {
      ThenBody(PrefixRest(s), if state == 2 then remLen else BodySize(s))
    }

    /** One round of the loop of MQTTPacket_decodenb: the byte was the last of the field (more is false) or not,
        or there was none (rc is 0), or it was one attempt too many. */
    method DecodeByte(ghost s: seq<byte>, ghost after: bool) returns (rc: int, more: bool)
      requires s != [] && Decoder(s, stream, len, remLen, multiplier)
      modifies `len, `remLen, `multiplier, `stream, `grants
      ensures rc < 0 ==>
                && rc == MQTTPACKET_READ_ERROR && !more
                && stream == old(stream) && grants == old(grants)
                && !old(TimeLeft(s, stream, grants, len, after).Done?)
                && (old(TimeLeft(s, stream, grants, len, after)) == Late
                    || (!after && grants == [] && old(len) == MAX_LENGTH_BYTES))
      ensures rc == 0 || more ==>
                && Decoder(s, stream, len, remLen, multiplier) && len > 0
                && TimeLeft(s, stream, grants, len, more) == old(TimeLeft(s, stream, grants, len, after))
      ensures rc >= 0 ==> grants == (if old(grants) == [] then [] else old(grants)[1..])
      ensures rc == 0 ==> stream == old(stream)
      ensures more ==> rc > 0 && |stream| < old(|stream|)
      ensures rc > 0 && !more ==>
                FieldRead(s, stream, remLen) && old(TimeLeft(s, stream, grants, len, after)) == Done(grants)
      ensures old(Deliveries(grants)) - Deliveries(grants) <= old(|stream|) - |stream|
    {
      hide Decoder, FieldRead, TimeLeft, Deliveries, AddDigit, InField;
      OutOfAttempts(s, stream, len, remLen, multiplier, grants, after);
      len := len + 1;
      if len > MAX_LENGTH_BYTES {
        return MQTTPACKET_READ_ERROR, false;
      }
      ghost var before, schedule := stream, grants;
      var c := Get(1);
      DecoderStep(s, before, len - 1, remLen, multiplier, schedule, after, c);
      if c == [] {
        assert stream == before;
        return 0, false;
      }
      remLen := AddDigit(remLen, c[0], multiplier);
      multiplier := multiplier * 128;
      return len, c[0] >= 128;
    }

    /** MQTTPacket_decodenb. */
    method DecodeNb(ghost s: seq<byte>) returns (rc: int)
      requires s != [] && Reading(s) && InField(s, Consumed(s), len, remLen, multiplier)
      modifies `len, `remLen, `multiplier, `stream, `grants
      ensures Reading(s)
      ensures rc == 0 ==>
                && InField(s, Consumed(s), len, remLen, multiplier)
                && TimeLeft(s, stream, grants, len, false) == old(TimeLeft(s, stream, grants, len, false))
      ensures rc > 0 ==> FieldRead(s, stream, remLen) && old(TimeLeft(s, stream, grants, len, false)) == Done(grants)
      ensures rc < 0 ==>
                && rc == MQTTPACKET_READ_ERROR && !old(TimeLeft(s, stream, grants, len, false).Done?)
                && (old(TimeLeft(s, stream, grants, len, false)) == Late
                    || (old(grants) == [] && old(len) == MAX_LENGTH_BYTES))
      ensures old(Deliveries(grants)) - Deliveries(grants) <= old(|stream|) - |stream|
      ensures |grants| <= old(|grants|) && (rc >= 0 && old(grants) != [] ==> |grants| < old(|grants|))
    {
      hide Decoder, FieldRead, TimeLeft, Deliveries, InField;
      FieldStarts(s, stream, len, remLen, multiplier);
      if len == 0 {
        multiplier, remLen := 1, 0;
      }
      ghost var time, gave := TimeLeft(s, stream, grants, len, false), Deliveries(grants) - |stream|;
      ghost var spent := grants == [] && len == MAX_LENGTH_BYTES;
      rc := 0;
      var more := true;
      ghost var called := false;
      while more
        invariant rc < 0 ==>
                    rc == MQTTPACKET_READ_ERROR && !time.Done? && (time == Late || spent) && !more && Reading(s)
        invariant more || rc == 0 ==>
                    && Decoder(s, stream, len, remLen, multiplier)
                    && TimeLeft(s, stream, grants, len, called && more) == time
        invariant !called ==> (grants == [] && len == MAX_LENGTH_BYTES ==> spent)
        invariant !more && rc > 0 ==> FieldRead(s, stream, remLen) && time == Done(grants)
        invariant gave <= Deliveries(grants) - |stream|
        invariant |grants| <= old(|grants|)
        invariant called && rc >= 0 && old(grants) != [] ==> |grants| < old(|grants|)
        invariant called || more
        decreases more, |stream|
      {
        DecoderIsReading(s, stream, len, remLen, multiplier);
        rc, more := DecodeByte(s, called);
        called := true;
      }
      DecoderIsReading(s, stream, len, remLen, multiplier);
    }

    /** State 0 of MQTTPacket_readnb: the header byte. */
    method ReadHeader(buf: array<byte>, buflen: nat, ghost s: seq<byte>) returns (again: bool)
      requires Framed(s) && state == 0 && Progress(s, buf, buflen)
      modifies this, buf
      ensures Progress(s, buf, buflen) && PrefixRest(s) == old(PrefixRest(s))
      ensures state == if again then 0 else 1
      ensures state == 1 ==> len == 0
      ensures old(Deliveries(grants)) - Deliveries(grants) <= old(|stream|) - |stream|
      ensures grants == if old(grants) == [] then [] else old(grants)[1..]
    {
      hide InField, FieldLeft, Deliveries;
      var header := Get(1);
      again := header == [];
      if !again {
        buf[0] := header[0];
        len := 0;
        state := 1;
        StartOfField(s, remLen, multiplier);
      }
    }

    /** State 1: the length field, put back into the buffer in its shortest form. */
    method ReadField(buf: array<byte>, buflen: nat, ghost s: seq<byte>) returns (rc: int)
      requires Framed(s) && state == 1 && Progress(s, buf, buflen)
      modifies this, buf
      ensures rc < 0 ==>
                && rc == MQTTPACKET_READ_ERROR && state == 0 && !(old(InTime(s)) && Fits(s, buflen))
                && (Fits(s, buflen) && (old(grants) != [] || old(len) == 0) ==> old(PrefixRest(s)) == Late)
      ensures rc == 0 ==> state == 1 && Progress(s, buf, buflen) && PrefixRest(s) == old(PrefixRest(s))
      ensures rc > 0 ==> && state == 2 && Fits(s, buflen) && old(PrefixRest(s)) == Done(grants) && Reading(s)
                         && len <= buf.Length && InBody(s, Consumed(s), remLen, buf[..len])
                         && remLen == BodySize(s)
      ensures old(Deliveries(grants)) - Deliveries(grants) <= old(|stream|) - |stream|
      ensures |grants| <= old(|grants|) && (rc >= 0 && old(grants) != [] ==> |grants| < old(|grants|))
    {
      hide InField, FieldLeft, Decoding, Terminated, Encoding, Deliveries;
      rc := DecodeNb(s);
      if rc == MQTTPACKET_READ_ERROR {
        state := 0;
      } else if rc > 0 {
        var n := Encode(buf, 1, remLen);
        len := 1 + n;
        assert buf[..len] == [buf[0]] + buf[1..1 + n];
        if remLen + len > buflen {
          state := 0;
          return MQTTPACKET_READ_ERROR;
        }
        state := 2;
        assert Contents(s)[..len] == Header(s);
      }
    }

    /** State 2: the rest of the packet, in as many pieces as it comes. */
    method ReadBody(buf: array<byte>, buflen: nat, ghost s: seq<byte>) returns (again: bool)
      requires Framed(s) && state == 2 && Reading(s) && Fits(s, buflen) && |Header(s)| <= buflen <= buf.Length
      requires len <= buf.Length && InBody(s, Consumed(s), remLen, buf[..len])
      requires remLen > 0 || BodySize(s) == 0
      modifies this, buf
      ensures again ==> state == 2 && Progress(s, buf, buflen)
      ensures again && BodySize(s) > 0 ==> BodyLeft(grants, remLen) == old(BodyLeft(grants, remLen))
      ensures !again ==>
                && buf[..|Contents(s)|] == Contents(s) && stream == s[PacketSize(s)..] && BodySize(s) > 0
                && old(BodyLeft(grants, remLen)) == Done(grants)
      ensures BodySize(s) > 0 ==> old(Deliveries(grants)) - Deliveries(grants) <= old(|stream|) - |stream|
      ensures grants == if old(grants) == [] then [] else old(grants)[1..]
    {
      hide InField, FieldLeft, BodyLeft, Decoding, Terminated, Encoding, Header, Deliveries;
      ghost var schedule, missing := grants, remLen;
      StreamLasts(s, Consumed(s), remLen, buf[..len]);
      var part := Get(remLen);
      BodyStep(schedule, missing, |part|);
      if part == [] {
        return true;
      }
      BodyAdvances(s, Consumed(s) - |part|, remLen, buf[..len], part);
      var next := WriteBytes(buf, len, part);
      remLen := remLen - |part|;
      len := next;
      return remLen > 0;
    }

    /** MQTTPacket_readnb, called while the packet at the start of s is being read.  done tells a completed
        packet from the two return codes that are no packet type. */
    method ReadNb(buf: array<byte>, buflen: nat, ghost s: seq<byte>) returns (rc: int, ghost done: bool)
      requires Framed(s) && Progress(s, buf, buflen)
      modifies this, buf
      ensures done ==>
                && rc == TypeOf(s[0]) && |Contents(s)| <= buf.Length && buf[..|Contents(s)|] == Contents(s)
                && stream == s[PacketSize(s)..] && state == 0
                && Fits(s, buflen) && BodySize(s) > 0 && old(InTime(s))
                && old(PacketRest(s)) == Done(grants)
      ensures !done && rc == 0 ==> Progress(s, buf, buflen) && InTime(s) == old(InTime(s))
      ensures !done && rc == 0 && BodySize(s) > 0 ==> PacketRest(s) == old(PacketRest(s))
      ensures !done && rc != 0 ==>
                && rc == MQTTPACKET_READ_ERROR && state == 0 && !(old(InTime(s)) && Fits(s, buflen))
                && (Fits(s, buflen) && old(grants) != [] ==> old(PacketRest(s)) == Late)
      ensures BodySize(s) > 0 && rc >= 0 ==>
                old(Deliveries(grants)) - Deliveries(grants) <= old(|stream|) - |stream|
      ensures old(grants) != [] && rc >= 0 ==> |grants| < old(|grants|)
    {
      hide InField, TimeLeft, PrefixLeft, BodyLeft, Decoding, Terminated, Encoding, Header, Deliveries, InBody;
      rc, done := 0, false;
      if state == 0 {
        var again := ReadHeader(buf, buflen, s);
        if again {
          return;
        }
      }
      if state == 1 {
        rc := ReadField(buf, buflen, s);
        if rc <= 0 {
          return;
        }
      }
      var again := ReadBody(buf, buflen, s);
      if again {
        return 0, false;
      }
      state := 0;
      ContentsStart(s);
      return TypeOf(buf[0]), true;
    }

    /** Calling MQTTPacket_readnb until it stops returning 0, or the schedule ends.  The packet comes out, with
        the same type and buffer contents as from the blocking reader, exactly when it fits the buffer, has a
        body, and its length field takes at most four calls of getfn. */
    method Poll(buf: array<byte>, buflen: nat, ghost s: seq<byte>) returns (rc: int, ghost done: bool)
      requires Framed(s) && Progress(s, buf, buflen) && TypeOf(s[0]) != 0
      modifies this, buf
      ensures done ==>
                && rc == TypeOf(s[0]) && |Contents(s)| <= buf.Length && buf[..|Contents(s)|] == Contents(s)
                && stream == s[PacketSize(s)..] && state == 0
      ensures !done ==> rc == 0 || rc == MQTTPACKET_READ_ERROR
      ensures done ==> Fits(s, buflen) && BodySize(s) > 0 && old(InTime(s))
      ensures old(Deliveries(grants)) >= PacketSize(s) - old(Consumed(s)) ==>
                (done <==> Fits(s, buflen) && BodySize(s) > 0 && old(InTime(s)))
    {
      hide Decoding, Encoding, Terminated, Contents, TypeOf, Fits;
      ghost var inTime, gave := InTime(s), Deliveries(grants) + Consumed(s);
      rc, done := 0, false;
      while rc == 0 && grants != []
        invariant !done && rc == 0 ==> Progress(s, buf, buflen) && InTime(s) == inTime
        invariant !done && rc != 0 ==> rc == MQTTPACKET_READ_ERROR && !(inTime && Fits(s, buflen))
        invariant done ==>
                    && rc == TypeOf(s[0]) && |Contents(s)| <= buf.Length && buf[..|Contents(s)|] == Contents(s)
                    && stream == s[PacketSize(s)..] && state == 0
                    && Fits(s, buflen) && BodySize(s) > 0 && inTime
        invariant rc == 0 && BodySize(s) > 0 ==> gave <= Deliveries(grants) + Consumed(s)
        decreases rc == 0, |grants|
      {
        rc, done := ReadNb(buf, buflen, s);
      }
    }
  }

  /** A stream of whole packets that fit the buffer and have a body and a type. */
  predicate Packets(s: seq<byte>, buflen: nat)
    decreases |s|
  {
    s == [] || (Framed(s) && Fits(s, buflen) && BodySize(s) > 0 && TypeOf(s[0]) != 0
                && Packets(s[PacketSize(s)..], buflen))
  }

  /** What the blocking reader would return and leave in its buffer, packet by packet. */
  ghost function Blocking(s: seq<byte>, buflen: nat): seq<(int, seq<byte>)>
    requires Packets(s, buflen)
    decreases |s|
  {
    if s == [] then [] else [(TypeOf(s[0]), Contents(s))] + Blocking(s[PacketSize(s)..], buflen)
  }

  lemma AtStart(t: Transport, buf: array<byte>, buflen: nat, s: seq<byte>)
    requires Framed(s) && Fits(s, buflen) && buflen <= buf.Length && t.state == 0 && t.stream == s
    ensures t.Progress(s, buf, buflen)
  {
    hide Encoding, Decoding, Terminated;
  }

  /** As long as a packet is being read there is something to read. */
  lemma MoreToRead(t: Transport, buf: array<byte>, buflen: nat, s: seq<byte>)
    requires Framed(s) && BodySize(s) > 0 && t.Progress(s, buf, buflen)
    ensures t.stream != []
  {
    hide Encoding, Decoding;
  }

  lemma OneMorePacket(out: seq<(int, seq<byte>)>, s: seq<byte>, buflen: nat)
    requires s != [] && Packets(s, buflen)
    ensures var rest := s[PacketSize(s)..];
            && Packets(rest, buflen)
            && out + [(TypeOf(s[0]), Contents(s))] + Blocking(rest, buflen) == out + Blocking(s, buflen)
  {
    hide Contents, TypeOf, Fits, Framed;
  }

  lemma FirstPacket(s: seq<byte>, buflen: nat)
    requires s != [] && Packets(s, buflen)
    ensures Framed(s) && Fits(s, buflen) && BodySize(s) > 0 && TypeOf(s[0]) != 0
  {
  }

  /** How a whole stream of packets fares with a schedule. */
  function StreamLeft(grants: Schedule, s: seq<byte>, buflen: nat): Left
    requires Packets(s, buflen)
    decreases |s|
  {
    if s == [] then Done(grants)
    else
      var l := ThenBody(PrefixLeft(grants, FieldSize(s)), BodySize(s));
      if l.Done? then StreamLeft(l.rest, s[PacketSize(s)..], buflen) else l
  }

  /** The packet being read and those after it. */
  ghost function ThenStream(l: Left, s: seq<byte>, buflen: nat): Left
    requires s != [] && Packets(s, buflen)
  {
    if l.Done? then StreamLeft(l.rest, s[PacketSize(s)..], buflen) else l
  }

  lemma StreamStep(r: Schedule, s: seq<byte>, buflen: nat)
    requires Packets(s, buflen)
    ensures StreamLeft(r, s, buflen)
         == if s == [] then Done(r) else ThenStream(ThenBody(PrefixLeft(r, FieldSize(s)), BodySize(s)), s, buflen)
  {
  }

  lemma PacketAtStart(t: Transport, s: seq<byte>)
    requires Framed(s) && t.state == 0
    ensures t.PacketRest(s) == ThenBody(PrefixLeft(t.grants, FieldSize(s)), BodySize(s))
  {
  }

  /** What is known of the stream once its first packet is complete, or cannot be. */
  lemma AfterPacket(l: Left, s: seq<byte>, buflen: nat)
    requires s != [] && Packets(s, buflen)
    ensures l.Done? ==> ThenStream(l, s, buflen) == StreamLeft(l.rest, s[PacketSize(s)..], buflen)
    ensures !l.Done? ==> ThenStream(l, s, buflen) == l
  {
  }

  /** With nothing left to be granted, a packet that is not complete has met the end of the schedule. */
  lemma EndOfSchedule(t: Transport, buf: array<byte>, buflen: nat, s: seq<byte>)
    requires Framed(s) && BodySize(s) > 0 && t.Progress(s, buf, buflen) && t.grants == []
    ensures t.PacketRest(s) == Ended
  {
    hide Encoding, Decoding, Terminated;
  }

  /** Polling through a whole stream, until the schedule ends.  It fails exactly when some length field takes a call too
      many; and it comes to the end of the stream, with the packets of the blocking reader in order, exactly when the
      schedule completes them all, as it does if it delivers enough and no field is late. */
  method PollStream(t: Transport, buf: array<byte>, buflen: nat, ghost s: seq<byte>)
    returns (rc: int, ghost out: seq<(int, seq<byte>)>)
    requires Packets(s, buflen) && t.state == 0 && t.stream == s && buflen <= buf.Length
    modifies t, buf
    ensures out <= Blocking(s, buflen)
    ensures rc == if old(StreamLeft(t.grants, s, buflen)) == Late then MQTTPACKET_READ_ERROR else 0
    ensures old(StreamLeft(t.grants, s, buflen)).Done? ==>
              out == Blocking(s, buflen) && t.stream == [] && t.state == 0
    ensures t.stream == [] && t.state == 0 && rc == 0 ==> old(StreamLeft(t.grants, s, buflen)).Done?
    ensures old(StreamLeft(t.grants, s, buflen)) != Late && old(Deliveries(t.grants)) >= |s| ==>
              old(StreamLeft(t.grants, s, buflen)).Done?
  {
    hide Decoding, Encoding, Terminated, Contents, TypeOf, Fits, FieldLeft, BodyLeft, HeaderLeft, InField, InBody,
         Packets, Header, StreamLeft, ThenStream, ThenBody, PrefixLeft;
    rc, out := 0, [];
    StreamStep(t.grants, s, buflen);
    ghost var cur, gave, left := s, Deliveries(t.grants) - |t.stream|, StreamLeft(t.grants, s, buflen);
    if cur != [] {
      FirstPacket(cur, buflen);
      AtStart(t, buf, buflen, cur);
      PacketAtStart(t, cur);
    }
    while rc == 0 && t.grants != [] && (t.state != 0 || t.stream != [])
      invariant Packets(cur, buflen) && out + Blocking(cur, buflen) == Blocking(s, buflen)
      invariant rc == 0 || (rc == MQTTPACKET_READ_ERROR && left == Late)
      invariant rc == 0 ==> if cur == [] then t.state == 0 && t.stream == [] && left == Done(t.grants)
                            else && Framed(cur) && t.Progress(cur, buf, buflen)
                                 && left == ThenStream(t.PacketRest(cur), cur, buflen)
      invariant rc == 0 ==> gave <= Deliveries(t.grants) - |t.stream|
      decreases rc == 0, |t.grants|
    {
      FirstPacket(cur, buflen);
      AfterPacket(t.PacketRest(cur), cur, buflen);
      ghost var done;
      rc, done := t.ReadNb(buf, buflen, cur);
      if rc > 0 {
        rc := 0;
        OneMorePacket(out, cur, buflen);
        out := out + [(TypeOf(cur[0]), Contents(cur))];
        cur := cur[PacketSize(cur)..];
        StreamStep(t.grants, cur, buflen);
        if cur != [] {
          FirstPacket(cur, buflen);
          AtStart(t, buf, buflen, cur);
          PacketAtStart(t, cur);
        }
      }
    }
    if rc == 0 && cur != [] {
      FirstPacket(cur, buflen);
      MoreToRead(t, buf, buflen, cur);
      EndOfSchedule(t, buf, buflen, cur);
      AfterPacket(t.PacketRest(cur), cur, buflen);
    }
  }

  /** The state of a reader that is past the length field, has remLen bytes to go and has filled this much. */
  ghost predicate InBody(s: seq<byte>, k: nat, remLen: nat, filled: seq<byte>)
    requires Framed(s)
  {
    && 1 + FieldSize(s) <= k && k + remLen == PacketSize(s)
    && filled == Contents(s)[..|Contents(s)| - remLen]
  }

  /** One read of the body with a schedule. */
  lemma BodyStep(grants: Schedule, remLen: nat, part: nat)
    requires part == if grants == [] then 0 else Min(grants[0], remLen)
    ensures var later := if grants == [] then [] else grants[1..];
            && (remLen > 0 ==> BodyLeft(grants, remLen) == BodyLeft(later, remLen - part))
            && (remLen > 0 && part == remLen ==> BodyLeft(grants, remLen) == Done(later))
  {
  }

  lemma StreamLasts(s: seq<byte>, k: nat, remLen: nat, filled: seq<byte>)
    requires Framed(s) && InBody(s, k, remLen, filled)
    ensures remLen <= |s| - k
  {
  }

  lemma ContentsStart(s: seq<byte>)
    requires Framed(s)
    ensures Contents(s)[0] == s[0]
  {
  }

  lemma BodyAdvances(s: seq<byte>, k: nat, remLen: nat, filled: seq<byte>, part: seq<byte>)
    requires Framed(s) && InBody(s, k, remLen, filled)
    requires |part| <= remLen && part == s[k..][..|part|]
    ensures InBody(s, k + |part|, remLen - |part|, filled + part)
  {
    hide Decoding, Encoding, Terminated;
    var h, body := Header(s), s[1 + FieldSize(s)..PacketSize(s)];
    var n := |body| - remLen;
    assert filled == h + body[..n];
    assert part == s[k..k + |part|];
    SliceOfSlice(s, 1 + FieldSize(s), PacketSize(s), n, n + |part|);
    assert filled + part == h + body[..n + |part|];
  }

  lemma StartOfField(s: seq<byte>, remLen: nat, multiplier: nat)
    requires Framed(s)
    ensures InField(s, 1, 0, remLen, multiplier)
  {
    DecodingReadsOnlyTheField(s[1..], [], MAX_LENGTH_BYTES);
  }

  /** The initialization on the first call. */
  lemma FieldStarts(s: seq<byte>, stream: seq<byte>, len: nat, remLen: nat, multiplier: nat)
    requires s != [] && |stream| <= |s| && stream == s[|s| - |stream|..]
    requires InField(s, |s| - |stream|, len, remLen, multiplier)
    ensures len == 0 ==> Decoder(s, stream, 0, 0, 1)
    ensures len > 0 ==> Decoder(s, stream, len, remLen, multiplier)
  {
  }

  lemma DecoderIsReading(s: seq<byte>, stream: seq<byte>, len: nat, remLen: nat, multiplier: nat)
    requires s != []
    ensures Decoder(s, stream, len, remLen, multiplier) ==>
              && |stream| <= |s| && stream == s[|s| - |stream|..]
              && InField(s, |s| - |stream|, len, remLen, multiplier)
    ensures FieldRead(s, stream, remLen) ==> |stream| <= |s| && stream == s[|s| - |stream|..]
  {
    hide InField;
  }
}
