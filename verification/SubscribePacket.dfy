/** SUBSCRIBE, MQTT 3.1.1 section 3.8 (MQTTSubscribeClient.c, MQTTSubscribeServer.c). */
module SubscribePacket {
  import opened Basics
  import opened RemainingLength
  import opened MqttStrings
  import opened FixedHeader

  datatype Filter = Filter(name: MqttString, qos: int)

  datatype Subscribe = Subscribe(dup: byte, packetId: uint16, filters: seq<Filter>)

  datatype ReceivedFilter = ReceivedFilter(name: seq<byte>, qos: int)

  datatype Received = Received(dup: nat, packetId: uint16, filters: seq<ReceivedFilter>)

  /** One topic filter and the quality of service requested for it, stored through a char. */
  function Entry(f: Filter): seq<byte> {
    Utf(f.name.Content()) + [TruncateToByte(f.qos)]
  }

  function Entries(fs: seq<Filter>): seq<byte> {
    if fs == [] then [] else Entry(fs[0]) + Entries(fs[1..])
  }

  function Body(s: Subscribe): seq<byte> {
    BigEndian16(s.packetId) + Entries(s.filters)
  }

  function Wire(s: Subscribe): seq<byte> {
    Packet(HeaderByte(SUBSCRIBE, s.dup, 1, 0), Body(s))
  }

  predicate Measured(fs: seq<Filter>) {
    forall f <- fs :: f.name.Measured()
  }

  predicate Representable(f: Filter) {
    |f.name.Content()| <= 0xFFFF && -128 <= f.qos < 128
  }

  function FilterFields(fs: seq<Filter>): seq<ReceivedFilter> {
    if fs == [] then []
    else [ReceivedFilter(fs[0].name.Content(), fs[0].qos)] + FilterFields(fs[1..])
  }

  function Fields(s: Subscribe): Received {
    Received(s.dup, s.packetId, FilterFields(s.filters))
  }

  /** The loop of MQTTDeserialize_subscribe from position p on, with the return code standing at rc. */
  function ParseEntries(buf: seq<byte>, p: nat, end: nat, rc: int): (r: Parsed<seq<ReceivedFilter>>)
    decreases |buf| - p
  {
    if p >= end then Parsed([])
    else
      var (name, q) :- ReadLenString(buf, p, end).Leaving(rc);
      if q >= end then Rejected(rc)
      else
        var qos :- ReadByte(buf, q);
        var rest :- ParseEntries(buf, q + 1, end, rc);
        Parsed([ReceivedFilter(name, SignedChar(qos))] + rest)
  }

  /** What MQTTDeserialize_subscribe returns for the bytes in buf. */
  function Parse(buf: seq<byte>): (r: Parsed<Received>) {
    var header :- ReadByte(buf, 0);
    if TypeOf(header) != SUBSCRIBE then Rejected(-1)
    else
      var (used, remLen) :- ReadLength(buf, 1);
      var end := 1 + used + remLen;
      var id :- ReadInt(buf, 1 + used);
      var filters :- ParseEntries(buf, 3 + used, end, used);
      Parsed(Received(DupOf(header), id, filters))
  }

  /** The filters that were written are read back exactly when each fits the bytes it is given. */
  lemma {:induction false} EntriesReadBack(before: seq<byte>, fs: seq<Filter>, rest: seq<byte>, rc: int)
    ensures ParseEntries(before + Entries(fs) + rest, |before|, |before| + |Entries(fs)|, rc)
            == Parsed(FilterFields(fs))
            <==> forall f <- fs :: Representable(f)
    decreases |fs|
  {
    hide BigEndian16, FromBigEndian16, ReadLenString, ReadByte, Utf, TruncateToByte, SignedChar,
         MqttString.Content;
    if fs != [] {
      hide ParseEntries, Representable;
      var f, tail := fs[0], Entries(fs[1..]);
      var buf, p, end := before + Entries(fs) + rest, |before|, |before| + |Entries(fs)|;
      Regroup(before, Entry(f), tail, rest);
      EntryReadBack(before, f, tail + rest, end);
      EntriesReadBack(before + Entry(f), fs[1..], rest, rc);
      ParseOneEntry(buf, p, end, rc, f, fs[1..]);
      FirstAndRest(fs);
    }
  }

  lemma FirstAndRest(fs: seq<Filter>)
    requires fs != []
    ensures (forall f <- fs :: Representable(f)) <==> Representable(fs[0]) && forall f <- fs[1..] :: Representable(f)
  {
    hide Representable;
    assert fs == [fs[0]] + fs[1..];
  }

  /** One round of the loop over an entry that was written. */
  lemma ParseOneEntry(buf: seq<byte>, p: nat, end: nat, rc: int, f: Filter, others: seq<Filter>)
    requires var name := f.name.Content();
             var q := p + 2 + |name|;
             && q < end
             && (ReadLenString(buf, p, end) == Parsed((name, q)) <==> |name| <= 0xFFFF)
             && ReadByte(buf, q) == Parsed(TruncateToByte(f.qos))
    ensures ParseEntries(buf, p, end, rc) == Parsed(FilterFields([f] + others)) <==>
              && Representable(f)
              && ParseEntries(buf, p + |Entry(f)|, end, rc) == Parsed(FilterFields(others))
  {
    hide ReadLenString, ReadByte, Utf, TruncateToByte, SignedChar, MqttString.Content;
    var name := f.name.Content();
    assert ([f] + others)[1..] == others;
    if |name| <= 0xFFFF {
      var left := ParseEntries(buf, p + |Entry(f)|, end, rc);
      var entry := ReceivedFilter(name, SignedChar(TruncateToByte(f.qos)));
      assert entry.qos == f.qos <==> -128 <= f.qos < 128;
      if left.Parsed? {
        SameList(entry, left.value, ReceivedFilter(name, f.qos), FilterFields(others));
      }
    } else {
      var r, all := ReadLenString(buf, p, end), ParseEntries(buf, p, end, rc);
      assert all.Parsed? ==> r.Parsed? && all.value[0].name == r.value.0 != name;
      assert FilterFields([f] + others)[0].name == name;
    }
  }

  lemma SameList<T>(x: T, xs: seq<T>, y: T, ys: seq<T>)
    ensures [x] + xs == [y] + ys <==> x == y && xs == ys
  {
    if [x] + xs == [y] + ys {
      assert ([x] + xs)[0] == x && ([x] + xs)[1..] == xs && ([y] + ys)[1..] == ys;
    }
  }

  lemma EntryReadBack(before: seq<byte>, f: Filter, rest: seq<byte>, end: nat)
    requires |before| + |Entry(f)| <= end
    ensures var buf, q := before + Entry(f) + rest, |before| + 2 + |f.name.Content()|;
            && (ReadLenString(buf, |before|, end) == Parsed((f.name.Content(), q)) <==> |f.name.Content()| <= 0xFFFF)
            && ReadByte(buf, q) == Parsed(TruncateToByte(f.qos))
  {
    var name, qos := Utf(f.name.Content()), [TruncateToByte(f.qos)];
    Regroup(before, name, qos, rest);
    ReadInvertsWrite(before, f.name.Content(), qos + rest, end);
  }

  /** A subscribe with any number of filters is read back unchanged, whatever follows it in the buffer, exactly when
      its fields fit the bits they are given. */
  lemma RoundTrip(s: Subscribe, rest: seq<byte>)
    requires |Body(s)| <= MAX_REMAINING_LENGTH
    ensures Parse(Wire(s) + rest) == Parsed(Fields(s)) <==> s.dup < 2 && forall f <- s.filters :: Representable(f)
  {
    hide HeaderByte, TypeOf, DupOf, BigEndian16, FromBigEndian16, Encoding, Entries, ParseEntries, Representable;
    var header, body := HeaderByte(SUBSCRIBE, s.dup, 1, 0), Body(s);
    ReadLengthOfPacket(header, body, rest);
    var before, id := [header] + Encoding(|body|), BigEndian16(s.packetId);
    Regroup(before, id, Entries(s.filters), rest);
    ReadIntInvertsWrite(before, s.packetId, Entries(s.filters) + rest);
    EntriesReadBack(before + id, s.filters, rest, |Encoding(|body|)|);
  }

  /** The codes a rejected subscribe is reported with: -1 for its type, otherwise the number of length bytes. */
  lemma RejectionCode(buf: seq<byte>)
    requires Parse(buf).Rejected?
    ensures Parse(buf).rc == if TypeOf(buf[0]) != 8 then -1 else Decoding(buf[1..]).0
  {
    if TypeOf(buf[0]) == SUBSCRIBE {
      var (used, remLen) := ReadLength(buf, 1).value;
      EntriesRejectedWith(buf, 3 + used, 1 + used + remLen, used);
    }
  }

  /** A subscribe packet cut off inside its filters is still reported with 1, the code for success, exactly when
      its length field is a single byte. */
  lemma RejectedAsSuccess(buf: seq<byte>)
    requires Parse(buf).Rejected?
    ensures Parse(buf).rc == 1 <==> TypeOf(buf[0]) == SUBSCRIBE && buf[1] < 128
  {
    RejectionCode(buf);
  }

  /** A subscribe whose filter has one byte of its length only. */
  lemma RejectedAsSuccessExample()
    ensures Parse([0x82, 3, 0, 1, 0]) == Rejected(1)
  {
  }

  lemma {:induction false} EntriesRejectedWith(buf: seq<byte>, p: nat, end: nat, rc: int)
    ensures ParseEntries(buf, p, end, rc).Rejected? ==> ParseEntries(buf, p, end, rc).rc == rc
    decreases |buf| - p
  {
    if p < end {
      var r := ReadLenString(buf, p, end);
      if r.Parsed? && r.value.1 < end {
        EntriesRejectedWith(buf, r.value.1 + 1, end, rc);
      }
    }
  }

  /** The reader never looks at the length of its buffer.  On a buffer that holds exactly one packet it reads past the
      end exactly when there is no room for the packet identifier. */
  lemma OverrunsExactly(header: byte, body: seq<byte>)
    requires |body| <= MAX_REMAINING_LENGTH
    ensures Parse(Packet(header, body)).Overrun? <==> TypeOf(header) == SUBSCRIBE && |body| < 2
  {
    hide TypeOf, DupOf, FromBigEndian16, Encoding, Decoding, ParseEntries;
    var buf := Packet(header, body);
    ReadLengthOfPacket(header, body, []);
    assert buf + [] == buf && buf == [header] + Encoding(|body|) + body;
    if |body| >= 2 {
      FiltersWithin(buf, 3 + |Encoding(|body|)|, |Encoding(|body|)|);
    }
  }

  /** A subscribe with one byte of its packet identifier only. */
  lemma OverrunExample()
    ensures Parse([0x82, 1, 0]).Overrun?
  {
    assert [0x82, 1, 0] == Packet(0x82, [0]);
    OverrunsExactly(0x82, [0]);
  }

  lemma {:induction false} FiltersWithin(buf: seq<byte>, p: nat, rc: int)
    requires p <= |buf|
    ensures !ParseEntries(buf, p, |buf|, rc).Overrun?
    decreases |buf| - p
  {
    if p < |buf| {
      var r := ReadLenString(buf, p, |buf|);
      if r.Parsed? && r.value.1 < |buf| {
        FiltersWithin(buf, r.value.1 + 1, rc);
      }
    }
  }

  /** What MQTTSerialize_subscribeLength predicts for the filters. */
  function Predicted(fs: seq<Filter>): nat {
    if fs == [] then 0 else 2 + fs[0].name.Strlen() + 1 + Predicted(fs[1..])
  }

  lemma {:induction false} PredictedSize(fs: seq<Filter>)
    requires Measured(fs)
    ensures Predicted(fs) == |Entries(fs)|
  {
    if fs != [] {
      assert fs[0] in fs;
      PredictedSize(fs[1..]);
    }
  }

  /** MQTTSerialize_subscribeLength. */
  method SubscribeLength(filters: seq<Filter>) returns (len: nat)
    ensures len == 2 + Predicted(filters)
    ensures Measured(filters) ==> len == 2 + |Entries(filters)|
  {
    len := 2;
    for i := 0 to |filters|
      invariant len + Predicted(filters[i..]) == 2 + Predicted(filters)
    {
      len := len + 2 + filters[i].name.Strlen() + 1;
      assert filters[i..][1..] == filters[i + 1..];
    }
    if Measured(filters) {
      PredictedSize(filters);
    }
  }

  /** What is written: the length field holds the predicted length. */
  function Written(s: Subscribe): seq<byte> {
    [HeaderByte(SUBSCRIBE, s.dup, 1, 0)] + Encoding(2 + Predicted(s.filters)) + Body(s)
  }

  /** The bytes of a subscribe (section 3.8), with the reserved flags of its first byte. */
  lemma Layout(s: Subscribe)
    requires s.dup < 2
    ensures var id := [s.packetId / 256, s.packetId % 256];
            && Written(s) == [0x82 + 8 * s.dup] + Encoding(2 + Predicted(s.filters)) + (id + Entries(s.filters))
            && Wire(s) == [0x82 + 8 * s.dup] + Encoding(2 + |Entries(s.filters)|) + (id + Entries(s.filters))
  {
    hide HeaderByte, Encoding, Entries;
    HeaderBits(SUBSCRIBE, s.dup, 1, 0);
  }

  /** Each filter is its name with a length, and the quality of service asked for; they follow each other in order. */
  lemma {:induction false} EntriesLayout(fs: seq<Filter>, f: Filter)
    requires |f.name.Content()| <= 0xFFFF && 0 <= f.qos < 128
    ensures var name := f.name.Content();
            Entries(fs + [f]) == Entries(fs) + [|name| / 256, |name| % 256] + name + [f.qos]
  {
    hide MqttString.Content;
    var name := f.name.Content();
    if fs == [] {
      assert [f][1..] == [] && Entry(f) == [|name| / 256, |name| % 256] + name + [f.qos];
    } else {
      assert (fs + [f])[1..] == fs[1..] + [f];
      EntriesLayout(fs[1..], f);
    }
  }

  /** The packet is off its prediction by what the filters are, all together.  It stays within what MQTTPacket_len asks
      for exactly when that is not more than the slack there, and has its true length in it exactly when it is nothing,
      as with one form in use in every filter. */
  lemma WrittenSize(s: Subscribe)
    ensures |Written(s)| == WireSize(2 + Predicted(s.filters)) + |Entries(s.filters)| - Predicted(s.filters)
    ensures 2 + Predicted(s.filters) <= MAX_REMAINING_LENGTH ==>
              (|Written(s)| <= PacketLen(2 + Predicted(s.filters))
               <==> |Entries(s.filters)| <= Predicted(s.filters) + Slack(2 + Predicted(s.filters)))
    ensures Written(s) == Wire(s) <==> |Entries(s.filters)| == Predicted(s.filters)
    ensures Measured(s.filters) ==> |Entries(s.filters)| == Predicted(s.filters)
  {
    hide HeaderByte, Encoding, BigEndian16, Entries, Predicted, PacketLen, Slack;
    if Measured(s.filters) {
      PredictedSize(s.filters);
    }
    TrueLength(HeaderByte(SUBSCRIBE, s.dup, 1, 0), 2 + Predicted(s.filters), Body(s));
  }

  /** One filter with both forms set that passes the size test for eight bytes and takes thirteen. */
  lemma PastTheBufferExample()
    ensures var name := MqttString(Some([0x61]), Some([0x61, 0x62, 0x63, 0x64, 0x65, 0x66]));
            var s := Subscribe(0, 1, [Filter(name, 0)]);
            !name.OneForm() && PacketLen(2 + Predicted(s.filters)) <= 8 && |Written(s)| == 13
  {
    var name := MqttString(Some([0x61]), Some([0x61, 0x62, 0x63, 0x64, 0x65, 0x66]));
    var fs := [Filter(name, 0)];
    assert fs[1..] == [] && Predicted(fs) == 4 && |Entries(fs)| == 9;
    hide Predicted, Entries;
    WrittenSize(Subscribe(0, 1, fs));
    SizeClasses(6);
  }

  /** MQTTSerialize_subscribe, with memory behind the buffer for what it writes past it. */
  method Serialize(buf: array<byte>, buflen: nat, s: Subscribe) returns (rc: int)
    requires buflen <= buf.Length
    requires PacketLen(2 + Predicted(s.filters)) <= buflen ==> |Written(s)| <= buf.Length
    modifies buf
    ensures PacketLen(2 + Predicted(s.filters)) > buflen ==>
              rc == MQTTPACKET_BUFFER_TOO_SHORT && buf[..] == old(buf[..])
    ensures PacketLen(2 + Predicted(s.filters)) <= buflen ==>
              && rc == |Written(s)| && buf[..rc] == Written(s)
              && forall i :: rc <= i < buf.Length ==> buf[i] == old(buf[i])
    ensures rc > 0 && Measured(s.filters) && |Body(s)| <= MAX_REMAINING_LENGTH ==>
              rc <= buflen && buf[..rc] == Wire(s)
  {
    hide HeaderByte, Encoding, BigEndian16, Entries, Predicted;
    WrittenSize(s);
    var remLen := SubscribeLength(s.filters);
    if PacketLen(remLen) > buflen {
      return MQTTPACKET_BUFFER_TOO_SHORT;
    }
    var ptr := WriteFixedHeader(buf, HeaderByte(SUBSCRIBE, s.dup, 1, 0), remLen);
    ghost var start := buf[..ptr];
    ptr := WriteInt(buf, ptr, s.packetId);
    ptr := WriteEntries(buf, ptr, s.filters);
    assert buf[..ptr] == start + Body(s);
    return ptr;
  }

  /** Its loop over the filters. */
  method WriteEntries(buf: array<byte>, start: nat, filters: seq<Filter>) returns (ptr: nat)
    requires start + |Entries(filters)| <= buf.Length
    modifies buf
    ensures ptr == start + |Entries(filters)|
    ensures buf[..ptr] == old(buf[..start]) + Entries(filters)
    ensures forall j :: ptr <= j < buf.Length ==> buf[j] == old(buf[j])
  {
    hide BigEndian16, TruncateToByte, Entries;
    ptr := start;
    assert filters[0..] == filters;
    for i := 0 to |filters|
      invariant ptr + |Entries(filters[i..])| == start + |Entries(filters)|
      invariant buf[..ptr] + Entries(filters[i..]) == old(buf[..start]) + Entries(filters)
      invariant forall j :: ptr <= j < buf.Length ==> buf[j] == old(buf[j])
    {
      ghost var before, tail := buf[..ptr], Entries(filters[i + 1..]);
      NextEntry(filters, i);
      ptr := WriteMqttString(buf, ptr, filters[i].name);
      ptr := WriteChar(buf, ptr, TruncateToByte(filters[i].qos));
      assert buf[..ptr] == before + Entry(filters[i]);
      Regroup(before, Entry(filters[i]), tail, []);
      assert before + (Entry(filters[i]) + tail) + [] == before + (Entry(filters[i]) + tail);
      assert tail + [] == tail;
    }
    NextEntry(filters, |filters|);
    assert buf[..ptr] + [] == buf[..ptr];
  }

  lemma NextEntry(filters: seq<Filter>, i: nat)
    requires i <= |filters|
    ensures Entries(filters[i..]) == if i < |filters| then Entry(filters[i]) + Entries(filters[i + 1..]) else []
  {
    if i < |filters| {
      assert filters[i..][1..] == filters[i + 1..];
    }
  }

  /** MQTTDeserialize_subscribe, with result arrays that have room for every filter. */
  method Deserialize(buf: seq<byte>) returns (r: Parsed<Received>)
    ensures r == Parse(buf)
  {
    var header :- ReadByte(buf, 0);
    if TypeOf(header) != SUBSCRIBE {
      return Rejected(-1);
    }
    var length :- ReadLength(buf, 1);
    var curdata := 1 + length.0;
    var enddata := curdata + length.1;
    var packetId :- ReadInt(buf, curdata);
    curdata := curdata + 2;
    var filters := ReadEntries(buf, curdata, enddata, length.0);
    if filters.IsFailure() {
      return filters.PropagateFailure();
    }
    return Parsed(Received(DupOf(header), packetId, filters.value));
  }

  /** Its loop over the filters. */
  method ReadEntries(buf: seq<byte>, start: nat, enddata: nat, rc: int)
    returns (r: Parsed<seq<ReceivedFilter>>)
    ensures r == ParseEntries(buf, start, enddata, rc)
  {
    hide ReadLenString, SignedChar;
    var curdata := start;
    var filters: seq<ReceivedFilter> := [];
    ghost var all := ParseEntries(buf, start, enddata, rc);
    ghost var left := all;
    assert all.Parsed? ==> filters + all.value == all.value;
    while curdata < enddata
      invariant left == ParseEntries(buf, curdata, enddata, rc)
      invariant all == if left.Parsed? then Parsed(filters + left.value) else left
      decreases |buf| - curdata
    {
      var name :- ReadLenString(buf, curdata, enddata).Leaving(rc);
      if name.1 >= enddata {
        return Rejected(rc);
      }
      var qos :- ReadByte(buf, name.1);
      ghost var before := filters;
      filters := filters + [ReceivedFilter(name.0, SignedChar(qos))];
      curdata := name.1 + 1;
      left := ParseEntries(buf, curdata, enddata, rc);
      assert left.Parsed? ==> filters + left.value == before + ([ReceivedFilter(name.0, SignedChar(qos))] + left.value);
    }
    assert filters + [] == filters;
    return Parsed(filters);
  }
}
