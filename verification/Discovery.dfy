/** Discovery of primary services and of descriptors (gatt.c; Bluetooth Core Vol 3, Part G, sections 4.4.1, 4.4.2
    and 4.7.1) with the responses it decodes and a server encodes (att.c). */
module Discovery {
  import opened Basics
  import opened AttCodes
  import opened AttPdu

  /** A service as it is reported: its handle range and its UUID in little-endian form, of 2 or 16 bytes; in the
      answer to a search by UUID the UUID is left out. */
  datatype Service = Service(start: uint16, end: uint16, uuid: seq<byte>)

  datatype Descriptor = Descriptor(handle: uint16, uuid: seq<byte>)

  /** What a callback does: send the next request, hand the result to the caller, or first of all read past the end of
      the PDU. */
  datatype Action = Ask(start: uint16) | Finish(err: byte) | ReadPastEnd

  function ServiceEntry(s: Service): seq<byte> {
    LittleEndian16(s.start) + LittleEndian16(s.end) + s.uuid
  }

  function ToService(e: seq<byte>): Service
    requires |e| >= 4
  {
    Service(Le16At(e, 0), Le16At(e, 2), e[4..])
  }

  lemma ServiceReadBack(s: Service)
    ensures ToService(ServiceEntry(s)) == s
  {
    var e := ServiceEntry(s);
    assert e[0..2] == LittleEndian16(s.start) && e[2..4] == LittleEndian16(s.end) && e[4..] == s.uuid;
  }

  function DescriptorEntry(d: Descriptor): seq<byte> {
    LittleEndian16(d.handle) + d.uuid
  }

  /** An element without a UUID in it gets one made of what lies beyond it in memory. */
  function ToDescriptor(e: seq<byte>, beyond: seq<byte>): Descriptor
    requires |e| >= 2
  {
    Descriptor(Le16At(e, 0), if |e| == 2 then beyond else e[2..])
  }

  lemma DescriptorReadBack(d: Descriptor, beyond: seq<byte>)
    requires d.uuid != []
    ensures ToDescriptor(DescriptorEntry(d), beyond) == d
  {
    var e := DescriptorEntry(d);
    assert e[0..2] == LittleEndian16(d.handle) && e[2..] == d.uuid;
  }

  /** The bytes of the elements of a response (Vol 3, Part F, sections 3.4.3 and 3.4.4). */
  lemma ElementLayout(s: Service, d: Descriptor)
    ensures ServiceEntry(s) == [s.start % 256, s.start / 256, s.end % 256, s.end / 256] + s.uuid
    ensures DescriptorEntry(d) == [d.handle % 256, d.handle / 256] + d.uuid
  {
    assert LittleEndian16(s.start) + LittleEndian16(s.end)
        == [s.start % 256, s.start / 256, s.end % 256, s.end / 256];
  }

  function Services(data: seq<seq<byte>>): (s: seq<Service>)
    requires forall e <- data :: |e| >= 4
    ensures |s| == |data|
  {
    seq(|data|, i requires 0 <= i < |data| => ToService(data[i]))
  }

  function Descriptors(data: seq<seq<byte>>, beyond: nat -> seq<byte>): (d: seq<Descriptor>)
    requires forall e <- data :: |e| >= 2
    ensures |d| == |data|
  {
    seq(|data|, i requires 0 <= i < |data| => ToDescriptor(data[i], beyond(i)))
  }

  // Response PDUs

  /** dec_read_by_grp_resp: the element length and the elements. */
  function ReadByGroup(pdu: seq<byte>): (r: Parsed<(nat, seq<seq<byte>>)>)
    ensures r.Parsed? ==> r.value.1 != [] && forall e <- r.value.1 :: |e| == r.value.0
    ensures r.Overrun? <==> pdu == []
  {
    if pdu == [] then Overrun
    else if pdu[0] != ATT_OP_READ_BY_GROUP_RESP || |pdu| < 7 || pdu[1] < 5 then Rejected(0)
    else if Remainder(|pdu| - 2, pdu[1]) != 0 then Rejected(0)
    else Parsed((pdu[1], Chunks(pdu[2..], pdu[1])))
  }

  /** dec_find_by_type_resp: the ranges found. */
  function FindByType(pdu: seq<byte>): (r: Option<seq<seq<byte>>>)
    ensures r.Some? ==> r.value != [] && forall e <- r.value :: |e| == 4
  {
    if |pdu| < 5 || pdu[0] != ATT_OP_FIND_BY_TYPE_RESP || Remainder(|pdu| - 1, 4) != 0 then None
    else Some(Chunks(pdu[1..], 4))
  }

  /** The element length dec_find_info_resp takes a format byte for: a handle, and a UUID of two bytes, of sixteen, or
      none. */
  function ElementSize(format: byte): nat {
    2 + if format == 1 then 2 else if format == 2 then 16 else 0
  }

  /** dec_find_info_resp.  It looks at the format byte, and counts the elements, without a look at the length. */
  function FindInfo(pdu: seq<byte>): (r: Parsed<seq<seq<byte>>>)
    ensures r.Parsed? ==> forall e <- r.value :: |e| >= 2
  {
    if pdu == [] then Overrun
    else if pdu[0] != ATT_OP_FIND_INFO_RESP then Rejected(0)
    else if |pdu| < 2 then Overrun
    else Parsed(Chunks(pdu[2..], ElementSize(pdu[1])))
  }

  /** A response that is decoded and turned into descriptors within its own bytes. */
  predicate Decodable(pdu: seq<byte>) {
    pdu != [] && (pdu[0] == ATT_OP_FIND_INFO_RESP ==> |pdu| >= 2 && (pdu[1] in {1, 2} || |pdu| < 4))
  }

  /** The decoder or the callback reads past the response exactly when it is not: it is cut off before its format byte,
      or it has elements of a format there is not. */
  lemma OverrunsExactly(pdu: seq<byte>)
    ensures !Decodable(pdu) <==>
              || FindInfo(pdu).Overrun?
              || (FindInfo(pdu).Parsed? && exists e <- FindInfo(pdu).value :: |e| == 2)
  {
    if pdu != [] && pdu[0] == ATT_OP_FIND_INFO_RESP && |pdu| >= 4 && pdu[1] !in {1, 2} {
      assert Chunks(pdu[2..], 2)[0] in Chunks(pdu[2..], 2);
    }
  }

  /** Which responses the decoders take: the right opcode, at least one element, elements of the length given or known,
      and nothing left over; of a Find Information response only the opcode is looked at. */
  lemma AcceptsExactly(pdu: seq<byte>)
    ensures ReadByGroup(pdu).Parsed? <==>
              && |pdu| >= 7 && pdu[0] == 0x11 && pdu[1] >= 5
              && (|pdu| - 2) % pdu[1] == 0
    ensures FindByType(pdu).Some? <==> |pdu| >= 5 && pdu[0] == 0x07 && (|pdu| - 1) % 4 == 0
    ensures FindInfo(pdu).Parsed? <==> |pdu| >= 2 && pdu[0] == 0x05
    ensures FindInfo(pdu).Rejected? <==> pdu != [] && pdu[0] != 0x05
  {
    if |pdu| >= 5 {
      Division(|pdu| - 1, 4);
      if pdu[1] > 0 {
        Division(|pdu| - 2, pdu[1]);
      }
    }
    hide Chunks, Remainder, Quotient;
  }

  /** The decoders as they run: the checks, then the loop over the elements. */
  method DecReadByGroup(pdu: seq<byte>) returns (r: Parsed<(nat, seq<seq<byte>>)>)
    ensures r == ReadByGroup(pdu)
  {
    if pdu == [] {
      return Overrun;
    }
    if pdu[0] != ATT_OP_READ_BY_GROUP_RESP || |pdu| < 7 {
      return Rejected(0);
    }
    var elen := pdu[1];
    if elen < 5 {
      return Rejected(0);
    }
    Division(|pdu| - 2, elen);
    if (|pdu| - 2) % elen != 0 {
      return Rejected(0);
    }
    var num := (|pdu| - 2) / elen;
    var data := DecodeList(pdu, 2, elen, num);
    return Parsed((elen, data));
  }

  method DecFindByType(pdu: seq<byte>) returns (r: Option<seq<seq<byte>>>)
    ensures r == FindByType(pdu)
  {
    if |pdu| < 5 || pdu[0] != ATT_OP_FIND_BY_TYPE_RESP {
      return None;
    }
    Division(|pdu| - 1, 4);
    if (|pdu| - 1) % 4 != 0 {
      return None;
    }
    var data := DecodeList(pdu, 1, 4, (|pdu| - 1) / 4);
    return Some(data);
  }

  method DecFindInfo(pdu: seq<byte>) returns (r: Parsed<seq<seq<byte>>>)
    ensures r == FindInfo(pdu)
  {
    if pdu == [] {
      return Overrun;
    }
    if pdu[0] != ATT_OP_FIND_INFO_RESP {
      return Rejected(0);
    }
    if |pdu| < 2 {
      return Overrun;
    }
    var elen := 2;
    if pdu[1] == 1 {
      elen := elen + 2;
    } else if pdu[1] == 2 {
      elen := elen + 16;
    }
    Division(|pdu| - 2, elen);
    var num := (|pdu| - 2) / elen;
    var data := DecodeList(pdu, 2, elen, num);
    return Parsed(data);
  }

  /** A response made of a head and as many elements as fit is decoded to just those elements. */
  lemma ResponseReadBack(head: seq<byte>, data: seq<seq<byte>>, elen: nat, room: nat)
    requires elen > 0 && data != [] && (forall e <- data :: |e| == elen) && elen <= room
    ensures var pdu, k := head + Packed(data, room), PackedCount(data, room);
            && k > 0 && |pdu| >= |head| + elen
            && Chunks(pdu[|head|..], elen) == data[..k]
            && Remainder(|pdu| - |head|, elen) == 0
  {
    assert data[0] in data;
    ChunksOfPacked(data, room, elen);
    assert (head + Packed(data, room))[|head|..] == Packed(data, room);
  }

  /** enc_read_by_grp_resp and enc_find_info_resp: opcode, a second byte and the elements that fit. */
  method EncodeResponse(op: byte, second: byte, data: seq<seq<byte>>, elen: nat, len: nat) returns (pdu: seq<byte>)
    requires elen > 0 && forall e <- data :: |e| == elen
    ensures len < elen + 2 ==> pdu == []
    ensures len >= elen + 2 ==> pdu == [op, second] + Packed(data, len - 2)
  {
    if len < elen + 2 {
      return [];
    }
    var buf := new byte[len];
    buf[0], buf[1] := op, second;
    var w := EncodeList(data, elen, buf, 2, len);
    return buf[..w];
  }

  /** enc_find_by_type_resp. */
  method EncodeRanges(data: seq<seq<byte>>, len: nat) returns (pdu: seq<byte>)
    requires len > 0 && forall e <- data :: |e| == 4
    ensures pdu == [ATT_OP_FIND_BY_TYPE_RESP] + Packed(data, len - 1)
  {
    var buf := new byte[len];
    buf[0] := ATT_OP_FIND_BY_TYPE_RESP;
    var w := EncodeList(data, 4, buf, 1, len);
    return buf[..w];
  }

  // The client

  /** struct discover_primary. */
  class DiscoverPrimary {
    var start: uint16
    var primaries: seq<Service>

    constructor ()
      ensures start == 1 && primaries == []
    {
      start, primaries := 1, [];
    }

    /** The test against endless searches and the next request, common to both callbacks. */
    method Continue(end: uint16) returns (action: Action)
      requires end != 0xFFFF
      modifies `start
      ensures end < old(start) ==> action == Finish(ATT_ECODE_UNLIKELY) && start == old(start)
      ensures end >= old(start) ==> action == Ask(start) && start == end + 1
    {
      if end < start {
        return Finish(ATT_ECODE_UNLIKELY);
      }
      start := end + 1;
      return Ask(start);
    }

    /** The loop over the elements of one response. */
    method AppendServices(data: seq<seq<byte>>) returns (end: uint16)
      requires forall e <- data :: |e| >= 4
      modifies `primaries
      ensures primaries == old(primaries) + Services(data)
      ensures data != [] ==> end == Services(data)[|data| - 1].end
    {
      end := 0;
      assert Services(data[..0]) == [] && primaries + [] == primaries;
      for i := 0 to |data|
        invariant primaries == old(primaries) + Services(data[..i])
        invariant i > 0 ==> end == Services(data)[i - 1].end
      {
        var service := ToService(data[i]);
        end := service.end;
        primaries := primaries + [service];
        assert Services(data[..i + 1]) == Services(data[..i]) + [service];
      }
      assert data[..|data|] == data;
    }

    /** primary_all_cb. */
    method PrimaryAllCb(status: byte, pdu: seq<byte>) returns (action: Action)
      modifies this
      ensures action.Ask? ==> action.start == start > old(start)
      ensures old(primaries) <= primaries
      ensures status != 0 || !ReadByGroup(pdu).Parsed? || ReadByGroup(pdu).value.0 !in {6, 20} ==>
                && primaries == old(primaries)
                && action == if status == ATT_ECODE_ATTR_NOT_FOUND then Finish(0)
                             else if status != 0 then Finish(status)
                             else if ReadByGroup(pdu).Overrun? then ReadPastEnd
                             else if ReadByGroup(pdu).Rejected? then Finish(ATT_ECODE_IO)
                             else Finish(ATT_ECODE_INVALID_PDU)
      ensures status == 0 && ReadByGroup(pdu).Parsed? && ReadByGroup(pdu).value.0 in {6, 20} ==>
                var found := Services(ReadByGroup(pdu).value.1);
                var end := found[|found| - 1].end;
                && primaries == old(primaries) + found
                && action == if end < old(start) then Finish(ATT_ECODE_UNLIKELY)
                             else if end == 0xFFFF then Finish(0) else Ask(end + 1)
    {
      if status != 0 {
        return Finish(if status == ATT_ECODE_ATTR_NOT_FOUND then 0 else status);
      }
      var list := DecReadByGroup(pdu);
      if list.Overrun? {
        return ReadPastEnd;
      }
      if list.Rejected? {
        return Finish(ATT_ECODE_IO);
      }
      if list.value.0 != 6 && list.value.0 != 20 {
        return Finish(ATT_ECODE_INVALID_PDU);
      }
      var end := AppendServices(list.value.1);
      if end < start {
        return Finish(ATT_ECODE_UNLIKELY);
      }
      if end == 0xFFFF {
        start := 0;
        return Finish(0);
      }
      action := Continue(end);
    }

    /** primary_by_uuid_cb. */
    method PrimaryByUuidCb(status: byte, pdu: seq<byte>) returns (action: Action)
      modifies this
      ensures action.Ask? ==> action.start == start > old(start)
      ensures old(primaries) <= primaries
      ensures status != 0 || FindByType(pdu).None? ==>
                && primaries == old(primaries)
                && action == Finish(if status == ATT_ECODE_ATTR_NOT_FOUND then 0 else status)
      ensures status == 0 && FindByType(pdu).Some? ==>
                var found := Services(FindByType(pdu).value);
                var end := found[|found| - 1].end;
                && primaries == old(primaries) + found
                && action == if end == 0xFFFF then Finish(0)
                             else if end < old(start) then Finish(ATT_ECODE_UNLIKELY) else Ask(end + 1)
    {
      if status != 0 {
        return Finish(if status == ATT_ECODE_ATTR_NOT_FOUND then 0 else status);
      }
      var ranges := DecFindByType(pdu);
      if ranges.None? {
        return Finish(0);
      }
      var found := Services(ranges.value);
      primaries := primaries + found;
      var end := found[|found| - 1].end;
      if end == 0xFFFF {
        return Finish(0);
      }
      action := Continue(end);
    }
  }

  /** struct discover_desc, without a UUID to look for. */
  class DiscoverDesc {
    var start: uint16
    const end: uint16
    var descriptors: seq<Descriptor>

    constructor (start: uint16, end: uint16)
      ensures this.start == start && this.end == end && descriptors == []
    {
      this.start, this.end, descriptors := start, end, [];
    }

    /** The loop over the elements of one response. */
    method AppendDescriptors(data: seq<seq<byte>>, beyond: nat -> seq<byte>) returns (last: uint16)
      requires forall e <- data :: |e| >= 2
      modifies `descriptors
      ensures descriptors == old(descriptors) + Descriptors(data, beyond)
      ensures last == if data == [] then 0xFFFF else Le16At(data[|data| - 1], 0)
    {
      last := 0xFFFF;
      assert Descriptors(data[..0], beyond) == [] && descriptors + [] == descriptors;
      for i := 0 to |data|
        invariant descriptors == old(descriptors) + Descriptors(data[..i], beyond)
        invariant last == if i > 0 then Le16At(data[i - 1], 0) else 0xFFFF
      {
        var descriptor := ToDescriptor(data[i], beyond(i));
        last := descriptor.handle;
        descriptors := descriptors + [descriptor];
        assert Descriptors(data[..i + 1], beyond) == Descriptors(data[..i], beyond) + [descriptor];
      }
      assert data[..|data|] == data;
    }

    /** desc_discovered_cb; beyond is what lies in memory behind each element of the response.  What is asked next does
        not depend on it. */
    method DescDiscoveredCb(status: byte, pdu: seq<byte>, beyond: nat -> seq<byte>) returns (action: Action)
      modifies this
      ensures action.Ask? ==> old(start) < action.start == start <= end
      ensures old(descriptors) <= descriptors
      ensures status != 0 || !FindInfo(pdu).Parsed? ==>
                && descriptors == old(descriptors)
                && action == if status == ATT_ECODE_ATTR_NOT_FOUND && descriptors != [] then Finish(0)
                             else if status != 0 then Finish(status)
                             else if FindInfo(pdu).Overrun? then ReadPastEnd else Finish(ATT_ECODE_IO)
      ensures status == 0 && FindInfo(pdu).Parsed? ==>
                var data := FindInfo(pdu).value;
                var last := if data == [] then 0xFFFF else Le16At(data[|data| - 1], 0);
                && descriptors == old(descriptors) + Descriptors(data, beyond)
                && action == if last < old(start) then Finish(ATT_ECODE_UNLIKELY)
                             else if last < end then Ask(last + 1) else Finish(0)
    {
      if status == ATT_ECODE_ATTR_NOT_FOUND {
        return Finish(if descriptors != [] then 0 else status);
      }
      if status != 0 {
        return Finish(status);
      }
      var list := DecFindInfo(pdu);
      if list.Overrun? {
        return ReadPastEnd;
      }
      if list.Rejected? {
        return Finish(ATT_ECODE_IO);
      }
      var last := AppendDescriptors(list.value, beyond);
      if last < start {
        return Finish(ATT_ECODE_UNLIKELY);
      }
      start := (last + 1) % 0x1_0000;
      if last < end {
        return Ask(start);
      }
      return Finish(0);
    }
  }

  // Any server

  /** Whatever a server answers, the start handle grows from round to round, so the search ends.  Only an answer
      without an opcode makes it read past a PDU. */
  method PrimaryAgainstAnyServer(byUuid: bool, answers: nat -> (byte, seq<byte>))
    returns (outcome: Action, rounds: nat)
    ensures !outcome.Ask? && 0 < rounds <= 0xFFFF
    ensures outcome.ReadPastEnd? <==> !byUuid && answers(rounds - 1) == (0, [])
    ensures answers(rounds - 1).0 != 0 ==>
              outcome == Finish(if answers(rounds - 1).0 == 0x0A then 0 else answers(rounds - 1).0)
  {
    var dp := new DiscoverPrimary();
    outcome, rounds := Ask(dp.start), 0;
    while outcome.Ask?
      invariant outcome.Ask? ==> rounds < dp.start
      invariant rounds <= 0xFFFF && (rounds == 0 ==> outcome.Ask?)
      invariant rounds > 0 ==> (outcome.ReadPastEnd? <==> !byUuid && answers(rounds - 1) == (0, []))
      invariant rounds > 0 && answers(rounds - 1).0 != 0 ==>
                  outcome == Finish(if answers(rounds - 1).0 == 0x0A then 0 else answers(rounds - 1).0)
      decreases outcome.Ask?, 0x1_0000 - dp.start
    {
      var (status, pdu) := answers(rounds);
      if byUuid {
        outcome := dp.PrimaryByUuidCb(status, pdu);
      } else {
        outcome := dp.PrimaryAllCb(status, pdu);
      }
      rounds := rounds + 1;
    }
  }

  /** The same for descriptors: the search ends after as many rounds at most as there are handles from the first to the
      last, even if it reads past responses of a format there is not; only a response cut off before its format byte
      ends it in a read past the PDU. */
  method DescAgainstAnyServer(start: uint16, end: uint16, answers: nat -> (byte, seq<byte>),
                              beyond: nat -> nat -> seq<byte>)
    returns (outcome: Action, rounds: nat)
    ensures !outcome.Ask? && 0 < rounds <= 1 + if start < end then end - start else 0
    ensures outcome.ReadPastEnd? <==> answers(rounds - 1).0 == 0 && FindInfo(answers(rounds - 1).1).Overrun?
  {
    hide FindInfo, Descriptors;
    var dd := new DiscoverDesc(start, end);
    outcome, rounds := Ask(dd.start), 0;
    while outcome.Ask?
      invariant outcome.Ask? && rounds > 0 ==> rounds + start <= dd.start <= end
      invariant outcome.Ask? && rounds == 0 ==> dd.start == start
      invariant rounds <= 1 + if start < end then end - start else 0
      invariant rounds == 0 ==> outcome.Ask?
      invariant rounds > 0 ==>
                  (outcome.ReadPastEnd? <==> answers(rounds - 1).0 == 0 && FindInfo(answers(rounds - 1).1).Overrun?)
      decreases outcome.Ask?, 0x1_0000 - dd.start
    {
      var (status, pdu) := answers(rounds);
      outcome := dd.DescDiscoveredCb(status, pdu, beyond(rounds));
      rounds := rounds + 1;
    }
  }

  // A conforming server

  /** Services in ascending order with disjoint ranges. */
  ghost predicate Sorted(services: seq<Service>) {
    && (forall i :: 0 <= i < |services| ==> 1 <= services[i].start <= services[i].end)
    && (forall i :: 0 < i < |services| ==> services[i - 1].end < services[i].start)
  }

  /** Where the services at or after a handle begin. */
  function FirstFrom(services: seq<Service>, handle: nat): (i: nat)
    ensures i <= |services|
  {
    if services == [] || services[0].start >= handle then 0 else 1 + FirstFrom(services[1..], handle)
  }

  lemma {:induction false} NextService(services: seq<Service>, i: nat, handle: nat)
    requires Sorted(services) && i <= |services|
    requires handle == if i == 0 then 1 else services[i - 1].end + 1
    ensures FirstFrom(services, handle) == i
  {
    if i > 0 {
      var rest := services[1..];
      assert forall k :: 0 <= k < |rest| ==> rest[k] == services[k + 1];
      if i == 1 {
        assert services[0].start < handle;
        assert rest != [] ==> rest[0].start >= handle;
      } else {
        NextService(rest, i - 1, handle);
        AscendingFrom(services, 0, i - 1);
      }
    }
  }

  /** The handle discovery goes on from once the first services are known. */
  function Resume(services: seq<Service>, done: nat): nat
    requires done <= |services|
  {
    if done == 0 then 1 else services[done - 1].end + 1
  }

  /** The last service of a batch ends at or after the handle that was asked for; only the last service of all can
      end at 0xFFFF. */
  lemma LastOfBatch(services: seq<Service>, i: nat, k: nat)
    requires Sorted(services) && k > 0 && i + k <= |services|
    ensures services[i..i + k][k - 1].end == services[i + k - 1].end >= Resume(services, i)
    ensures services[i + k - 1].end == 0xFFFF ==> i + k == |services|
  {
    AscendingFrom(services, i, i + k - 1);
    if i > 0 {
      assert services[i - 1].end < services[i].start;
    }
    if i + k < |services| {
      assert services[i + k - 1].end < services[i + k].start;
    }
  }

  lemma {:induction false} AscendingFrom(services: seq<Service>, i: nat, j: nat)
    requires Sorted(services) && i <= j < |services|
    ensures services[i].start <= services[j].end
  {
    if i < j {
      AscendingFrom(services, i, j - 1);
    }
  }

  /** How many of the entries from position i on go into one response: at most want, all of one length. */
  function Batch(data: seq<seq<byte>>, want: nat): (n: nat)
    requires want > 0 && data != []
    ensures 0 < n <= |data|
    ensures forall e <- data[..n] :: |e| == |data[0]|
  {
    if want == 1 || |data| == 1 || |data[1]| != |data[0]| then 1
    else
      var n := 1 + Batch(data[1..], want - 1);
      assert data[..n] == [data[0]] + data[1..][..n - 1];
      n
  }

  /** What a client reads back from a response made of such a batch. */
  lemma BatchReadBack(head: seq<byte>, all: seq<seq<byte>>, want: nat, room: nat)
    requires all != [] && want > 0 && 0 < |all[0]| <= room
    ensures var data, elen := all[..Batch(all, want)], |all[0]|;
            var pdu, k := head + Packed(data, room), PackedCount(data, room);
            && 0 < k <= |all| && |pdu| >= |head| + elen
            && Chunks(pdu[|head|..], elen) == all[..k]
            && Remainder(|pdu| - |head|, elen) == 0
  {
    var data := all[..Batch(all, want)];
    ResponseReadBack(head, data, |all[0]|, room);
    assert data[..PackedCount(data, room)] == all[..PackedCount(data, room)];
  }

  function Entries(services: seq<Service>): (data: seq<seq<byte>>)
    ensures |data| == |services|
  {
    seq(|services|, i requires 0 <= i < |services| => ServiceEntry(services[i]))
  }

  lemma EntriesReadBack(services: seq<Service>, i: nat, k: nat)
    requires i + k <= |services|
    ensures forall e <- Entries(services)[i..][..k] :: |e| >= 4
    ensures Services(Entries(services)[i..][..k]) == services[i..i + k]
  {
    forall j | 0 <= j < k
      ensures ToService(Entries(services)[i..][..k][j]) == services[i + j]
    {
      ServiceReadBack(services[i + j]);
    }
  }

  /** What a batch adds to the services found so far, and where it leaves off. */
  lemma BatchOfServices(services: seq<Service>, i: nat, k: nat)
    requires Sorted(services) && k > 0 && i + k <= |services|
    ensures forall e <- Entries(services)[i..][..k] :: |e| >= 4
    ensures var found := Services(Entries(services)[i..][..k]);
            && services[..i] + found == services[..i + k]
            && Resume(services, i) <= found[k - 1].end == Resume(services, i + k) - 1
            && (found[k - 1].end == 0xFFFF ==> i + k == |services|)
  {
    hide Services, Entries, Sorted;
    EntriesReadBack(services, i, k);
    LastOfBatch(services, i, k);
    assert services[..i] + services[i..i + k] == services[..i + k];
  }

  lemma FirstEntry(services: seq<Service>, i: nat)
    requires i < |services|
    ensures var all := Entries(services)[i..]; |all| == |services| - i && |all[0]| == 4 + |services[i].uuid|
    ensures services[i] in services
  {
  }

  lemma ReadByGroupReadBack(all: seq<seq<byte>>, want: nat, mtu: nat)
    requires all != [] && want > 0 && 5 <= |all[0]| <= mtu - 2 && |all[0]| < 256
    ensures var data, elen := all[..Batch(all, want)], |all[0]|;
            var k := PackedCount(data, mtu - 2);
            && 0 < k <= |all|
            && ReadByGroup([ATT_OP_READ_BY_GROUP_RESP, elen] + Packed(data, mtu - 2)) == Parsed((elen, all[..k]))
  {
    hide Chunks, Packed, PackedCount, Remainder, Batch;
    BatchReadBack([ATT_OP_READ_BY_GROUP_RESP, |all[0]|], all, want, mtu - 2);
  }

  lemma FindByTypeReadBack(all: seq<seq<byte>>, want: nat, mtu: nat)
    requires all != [] && want > 0 && 4 == |all[0]| <= mtu - 1
    ensures var data := all[..Batch(all, want)];
            var k := PackedCount(data, mtu - 1);
            && 0 < k <= |all|
            && FindByType([ATT_OP_FIND_BY_TYPE_RESP] + Packed(data, mtu - 1)) == Some(all[..k])
  {
    hide Chunks, Packed, PackedCount, Remainder, Batch;
    BatchReadBack([ATT_OP_FIND_BY_TYPE_RESP], all, want, mtu - 1);
  }

  /** A conforming server's answer to Read By Group Type for primary services from a handle on: the next services,
      at least one, at most want, of one UUID length, as many as the MTU has room for. */
  method AnswerReadByGroup(services: seq<Service>, i: nat, want: nat, mtu: nat) returns (pdu: seq<byte>, ghost k: nat)
    requires i < |services| && want > 0 && mtu >= 22
    requires forall s <- services :: |s.uuid| in {2, 16}
    ensures pdu != [] && 0 < k <= |services| - i
    ensures |services[i].uuid| in {2, 16}
    ensures ReadByGroup(pdu) == Parsed((4 + |services[i].uuid|, Entries(services)[i..][..k]))
    ensures [0x11, 4 + |services[i].uuid|] <= pdu
  {
    hide ReadByGroup, Packed, PackedCount, Chunks, Batch, Entries, ServiceEntry, Remainder;
    var all := Entries(services)[i..];
    FirstEntry(services, i);
    var data := all[..Batch(all, want)];
    var elen := |all[0]|;
    pdu := EncodeResponse(ATT_OP_READ_BY_GROUP_RESP, elen, data, elen, mtu);
    ReadByGroupReadBack(all, want, mtu);
    k := PackedCount(data, mtu - 2);
  }

  /** One round of it: the answer and the callback on it. */
  method AllRound(dp: DiscoverPrimary, services: seq<Service>, ghost done: nat, want: nat, mtu: nat)
    returns (action: Action, ghost next: nat)
    requires Sorted(services) && mtu >= 22 && want > 0
    requires forall s <- services :: |s.uuid| in {2, 16}
    requires done <= |services| && dp.primaries == services[..done] && dp.start == Resume(services, done)
    modifies dp
    ensures done <= next <= |services| && dp.primaries == services[..next]
    ensures action.Ask? ==> done < next && action.start == dp.start == Resume(services, next)
    ensures !action.Ask? ==> action == Finish(0) && next == |services|
  {
    hide ReadByGroup, Services, Entries, FirstFrom, Sorted;
    var i := FirstFrom(services, dp.start);
    NextService(services, done, dp.start);
    if i == |services| {
      action := dp.PrimaryAllCb(ATT_ECODE_ATTR_NOT_FOUND, [ATT_OP_ERROR]);
      next := done;
    } else {
      var pdu, k := AnswerReadByGroup(services, i, want, mtu);
      BatchOfServices(services, i, k);
      action := dp.PrimaryAllCb(0, pdu);
      next := i + k;
    }
  }

  /** Primary service discovery returns every service of the server, in order and once each. */
  method DiscoverAllPrimary(services: seq<Service>, mtu: nat, batches: nat -> nat)
    returns (err: byte, found: seq<Service>)
    requires Sorted(services) && mtu >= 22
    requires forall s <- services :: |s.uuid| in {2, 16}
    requires forall round :: batches(round) > 0
    ensures err == 0 && found == services
  {
    var dp := new DiscoverPrimary();
    var action, round := Ask(dp.start), 0;
    ghost var done := 0;
    while action.Ask?
      invariant done <= |services| && dp.primaries == services[..done]
      invariant action.Ask? ==> action.start == dp.start == Resume(services, done)
      invariant !action.Ask? ==> action == Finish(0) && done == |services|
      decreases action.Ask?, |services| - done
    {
      action, done := AllRound(dp, services, done, batches(round), mtu);
      round := round + 1;
    }
    return action.err, dp.primaries;
  }

  method AnswerFindByType(services: seq<Service>, i: nat, want: nat, mtu: nat) returns (pdu: seq<byte>, ghost k: nat)
    requires i < |services| && want > 0 && mtu >= 5
    requires forall s <- services :: s.uuid == []
    ensures pdu != [] && 0 < k <= |services| - i
    ensures FindByType(pdu) == Some(Entries(services)[i..][..k]) && pdu[0] == 0x07
  {
    hide FindByType, Packed, PackedCount, Chunks, Batch, Entries, ServiceEntry, Remainder;
    var all := Entries(services)[i..];
    FirstEntry(services, i);
    var data := all[..Batch(all, want)];
    pdu := EncodeRanges(data, mtu);
    FindByTypeReadBack(all, want, mtu);
    k := PackedCount(data, mtu - 1);
  }

  /** One round of it: the answer and the callback on it. */
  method ByUuidRound(dp: DiscoverPrimary, services: seq<Service>, ghost done: nat, want: nat, mtu: nat)
    returns (action: Action, ghost next: nat)
    requires Sorted(services) && mtu >= 5 && want > 0
    requires forall s <- services :: s.uuid == []
    requires done <= |services| && dp.primaries == services[..done] && dp.start == Resume(services, done)
    modifies dp
    ensures done <= next <= |services| && dp.primaries == services[..next]
    ensures action.Ask? ==> done < next && action.start == dp.start == Resume(services, next)
    ensures !action.Ask? ==> action == Finish(0) && next == |services|
  {
    hide FindByType, Services, Entries, FirstFrom, Sorted;
    var i := FirstFrom(services, dp.start);
    NextService(services, done, dp.start);
    if i == |services| {
      action := dp.PrimaryByUuidCb(ATT_ECODE_ATTR_NOT_FOUND, [ATT_OP_ERROR]);
      next := done;
    } else {
      var pdu, k := AnswerFindByType(services, i, want, mtu);
      BatchOfServices(services, i, k);
      action := dp.PrimaryByUuidCb(0, pdu);
      next := i + k;
    }
  }

  /** Discovery by UUID returns the range of every service with that UUID, in order and once each. */
  method DiscoverPrimaryByUuid(services: seq<Service>, mtu: nat, batches: nat -> nat)
    returns (err: byte, found: seq<Service>)
    requires Sorted(services) && mtu >= 5
    requires forall s <- services :: s.uuid == []
    requires forall round :: batches(round) > 0
    ensures err == 0 && found == services
  {
    var dp := new DiscoverPrimary();
    var action, round := Ask(dp.start), 0;
    ghost var done := 0;
    while action.Ask?
      invariant done <= |services| && dp.primaries == services[..done]
      invariant action.Ask? ==> action.start == dp.start == Resume(services, done)
      invariant !action.Ask? ==> action == Finish(0) && done == |services|
      decreases action.Ask?, |services| - done
    {
      action, done := ByUuidRound(dp, services, done, batches(round), mtu);
      round := round + 1;
    }
    return action.err, dp.primaries;
  }

  // Descriptors

  function ResumeAt(attrs: seq<Descriptor>, done: nat, start: nat): nat
    requires done <= |attrs|
  {
    if done == 0 then start else attrs[done - 1].handle + 1
  }

  lemma LastDescriptor(attrs: seq<Descriptor>, i: nat, k: nat, start: nat, end: nat)
    requires Rising(attrs, start, end) && k > 0 && i + k <= |attrs|
    ensures attrs[i..i + k][k - 1] == attrs[i + k - 1]
    ensures attrs[i + k - 1].handle >= ResumeAt(attrs, i, start)
    ensures attrs[i + k - 1].handle == end ==> i + k == |attrs|
  {
    var tail := attrs[i..];
    assert forall j :: 0 <= j < |tail| ==> tail[j] == attrs[i + j];
    RisingFar(tail, k - 1);
    if i > 0 {
      assert attrs[i - 1].handle < attrs[i].handle;
    }
    if i + k < |attrs| {
      assert attrs[i + k - 1].handle < attrs[i + k].handle;
    }
  }

  ghost predicate Rising(attrs: seq<Descriptor>, start: nat, end: nat) {
    && (forall i :: 0 <= i < |attrs| ==> start <= attrs[i].handle <= end)
    && (forall i :: 0 < i < |attrs| ==> attrs[i - 1].handle < attrs[i].handle)
  }

  function DescriptorsFrom(attrs: seq<Descriptor>, handle: nat): (i: nat)
    ensures i <= |attrs|
  {
    if attrs == [] || attrs[0].handle >= handle then 0 else 1 + DescriptorsFrom(attrs[1..], handle)
  }

  lemma {:induction false} NextDescriptor(attrs: seq<Descriptor>, i: nat, start: nat, end: nat, handle: nat)
    requires Rising(attrs, start, end) && i <= |attrs|
    requires handle == ResumeAt(attrs, i, start)
    ensures DescriptorsFrom(attrs, handle) == i
  {
    if i > 0 {
      var rest := attrs[1..];
      assert forall k :: 0 <= k < |rest| ==> rest[k] == attrs[k + 1];
      if i > 1 {
        NextDescriptor(rest, i - 1, start, end, handle);
        RisingFar(attrs, i - 1);
      } else if rest != [] {
        assert rest[0] == attrs[1];
      }
    }
  }

  lemma {:induction false} RisingFar(attrs: seq<Descriptor>, i: nat)
    requires forall k :: 0 < k < |attrs| ==> attrs[k - 1].handle < attrs[k].handle
    requires i < |attrs|
    ensures attrs[0].handle <= attrs[i].handle
  {
    if i > 0 {
      RisingFar(attrs, i - 1);
    }
  }

  function DescriptorEntries(attrs: seq<Descriptor>): (data: seq<seq<byte>>)
    ensures |data| == |attrs|
  {
    seq(|attrs|, i requires 0 <= i < |attrs| => DescriptorEntry(attrs[i]))
  }

  lemma DescriptorEntriesReadBack(attrs: seq<Descriptor>, i: nat, k: nat, beyond: nat -> seq<byte>)
    requires i + k <= |attrs| && forall d <- attrs :: d.uuid != []
    ensures forall e <- DescriptorEntries(attrs)[i..][..k] :: |e| >= 2
    ensures Descriptors(DescriptorEntries(attrs)[i..][..k], beyond) == attrs[i..i + k]
  {
    forall j: nat | j < k
      ensures ToDescriptor(DescriptorEntries(attrs)[i..][..k][j], beyond(j)) == attrs[i + j]
    {
      assert attrs[i + j] in attrs;
      DescriptorReadBack(attrs[i + j], beyond(j));
    }
  }

  lemma BatchOfDescriptors(attrs: seq<Descriptor>, i: nat, k: nat, start: nat, end: nat, beyond: nat -> seq<byte>)
    requires Rising(attrs, start, end) && k > 0 && i + k <= |attrs| && forall d <- attrs :: d.uuid != []
    ensures forall e <- DescriptorEntries(attrs)[i..][..k] :: |e| >= 2
    ensures var data := DescriptorEntries(attrs)[i..][..k];
            var last := Le16At(data[k - 1], 0);
            && attrs[..i] + Descriptors(data, beyond) == attrs[..i + k]
            && ResumeAt(attrs, i, start) <= last == ResumeAt(attrs, i + k, start) - 1
            && last <= end && (last == end ==> i + k == |attrs|)
  {
    hide Descriptors, DescriptorEntries;
    DescriptorEntriesReadBack(attrs, i, k, beyond);
    var data := DescriptorEntries(attrs)[i..][..k];
    assert |data| == k && Descriptors(data, beyond) == attrs[i..i + k];
    LastHandle(data, beyond);
    LastDescriptor(attrs, i, k, start, end);
    assert attrs[..i] + attrs[i..i + k] == attrs[..i + k];
  }

  lemma LastHandle(data: seq<seq<byte>>, beyond: nat -> seq<byte>)
    requires data != [] && forall e <- data :: |e| >= 2
    ensures Descriptors(data, beyond)[|data| - 1].handle == Le16At(data[|data| - 1], 0)
  {
    assert data[|data| - 1] in data;
    assert Descriptors(data, beyond)[|data| - 1] == ToDescriptor(data[|data| - 1], beyond(|data| - 1));
  }

  method AnswerFindInfo(attrs: seq<Descriptor>, i: nat, want: nat, mtu: nat) returns (pdu: seq<byte>, ghost k: nat)
    requires i < |attrs| && want > 0 && mtu >= 20
    requires forall d <- attrs :: |d.uuid| in {2, 16}
    ensures Decodable(pdu) && 0 < k <= |attrs| - i
    ensures FindInfo(pdu) == Parsed(DescriptorEntries(attrs)[i..][..k])
    ensures [0x05, if |attrs[i].uuid| == 2 then 1 else 2] <= pdu
  {
    hide Chunks, Packed, PackedCount, Remainder, Batch;
    var all := DescriptorEntries(attrs)[i..];
    var data := all[..Batch(all, want)];
    assert attrs[i] in attrs && all[0] == DescriptorEntry(attrs[i]);
    var elen := |all[0]|;
    var format := if elen == 4 then 1 else 2;
    pdu := EncodeResponse(ATT_OP_FIND_INFO_RESP, format, data, elen, mtu);
    BatchReadBack([ATT_OP_FIND_INFO_RESP, format], all, want, mtu - 2);
    k := PackedCount(data, mtu - 2);
  }

  method DescriptorRound(dd: DiscoverDesc, attrs: seq<Descriptor>, ghost done: nat, ghost start: uint16, want: nat,
                         mtu: nat)
    returns (action: Action, ghost next: nat)
    requires Rising(attrs, start, dd.end) && mtu >= 20 && want > 0
    requires forall d <- attrs :: |d.uuid| in {2, 16}
    requires done <= |attrs| && dd.descriptors == attrs[..done] && dd.start == ResumeAt(attrs, done, start)
    modifies dd
    ensures done <= next <= |attrs| && dd.descriptors == attrs[..next]
    ensures action.Ask? ==> done < next && action.start == dd.start == ResumeAt(attrs, next, start)
    ensures !action.Ask? ==>
              next == |attrs| && action == Finish(if attrs == [] then ATT_ECODE_ATTR_NOT_FOUND else 0)
  {
    hide FindInfo, Descriptors, DescriptorEntries, DescriptorsFrom, Rising;
    var beyond := (k: nat) => [];
    var i := DescriptorsFrom(attrs, dd.start);
    NextDescriptor(attrs, done, start, dd.end, dd.start);
    if i == |attrs| {
      action := dd.DescDiscoveredCb(ATT_ECODE_ATTR_NOT_FOUND, [ATT_OP_ERROR], beyond);
      next := done;
    } else {
      var pdu, k := AnswerFindInfo(attrs, i, want, mtu);
      BatchOfDescriptors(attrs, i, k, start, dd.end, beyond);
      action := dd.DescDiscoveredCb(0, pdu, beyond);
      next := i + k;
    }
  }

  /** Descriptor discovery returns every attribute of the range, in order and once each; a range without any ends
      in the server's error. */
  method DiscoverDescriptors(attrs: seq<Descriptor>, start: uint16, end: uint16, mtu: nat, batches: nat -> nat)
    returns (err: byte, found: seq<Descriptor>)
    requires Rising(attrs, start, end) && mtu >= 20
    requires forall d <- attrs :: |d.uuid| in {2, 16}
    requires forall round :: batches(round) > 0
    ensures found == attrs
    ensures err == if attrs == [] then ATT_ECODE_ATTR_NOT_FOUND else 0
  {
    var dd := new DiscoverDesc(start, end);
    var action, round := Ask(dd.start), 0;
    ghost var done := 0;
    while action.Ask?
      invariant done <= |attrs| && dd.descriptors == attrs[..done]
      invariant action.Ask? ==> action.start == dd.start == ResumeAt(attrs, done, start)
      invariant !action.Ask? ==>
                  done == |attrs| && action == Finish(if attrs == [] then ATT_ECODE_ATTR_NOT_FOUND else 0)
      decreases action.Ask?, |attrs| - done
    {
      action, done := DescriptorRound(dd, attrs, done, start, batches(round), mtu);
      round := round + 1;
    }
    return action.err, dd.descriptors;
  }
}
