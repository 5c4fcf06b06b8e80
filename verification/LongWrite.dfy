/** Writing a characteristic value of any length (gatt.c; Bluetooth Core Vol 3, Part G, sections 4.9.3, 4.9.4). */
module LongWrite {
  import opened Basics
  import opened AttCodes
  import opened AttPdu

  /** Overreads: the next request would be filled from beyond the end of the value. */
  datatype Action = Ask(pdu: seq<byte>) | Execute(pdu: seq<byte>) | Fail(status: byte) | Overreads

  /** struct write_long_data. */
  class WriteLong {
    const handle: uint16
    const value: seq<byte>
    const buflen: nat
    var offset: uint16

    constructor (handle: uint16, value: seq<byte>, buflen: nat)
      ensures this.handle == handle && this.value == value && this.buflen == buflen && offset == 0
    {
      this.handle, this.value, this.buflen, offset := handle, value, buflen, 0;
    }

    /** prepare_write. */
    method PrepareWrite() returns (pdu: seq<byte>)
      requires buflen >= 5 && offset <= |value|
      ensures pdu == EncPrepWrite(ATT_OP_PREP_WRITE_REQ, handle, offset, value[offset..], buflen)
      ensures exists part :: part <= value[offset..] && DecPrepWriteReq(pdu) == Some((handle, offset, part))
                             && (part == [] ==> offset == |value| || buflen == 5)
    {
      pdu := EncPrepWrite(ATT_OP_PREP_WRITE_REQ, handle, offset, value[offset..], buflen);
      RequestDecodes(handle, offset, value[offset..], buflen);
    }

    /** prepare_write_cb.  The length of the response is taken on trust; the offset is a 16-bit number and wraps, so a
        value longer than 65535 bytes is never executed. */
    method PrepareWriteCb(status: byte, rpdu: seq<byte>) returns (action: Action)
      requires buflen >= 5
      modifies this
      ensures status != 0 ==> action == Fail(status) && offset == old(offset)
      ensures status == 0 ==> offset == (old(offset) + |rpdu| - 5) % 0x1_0000
      ensures status == 0 && |rpdu| >= 5 && old(offset) + |rpdu| - 5 <= |value| <= 0xFFFF ==>
                offset == old(offset) + |rpdu| - 5
      ensures status == 0 && offset == |value| ==> action == Execute([ATT_OP_EXEC_WRITE_REQ, ATT_WRITE_ALL_PREP_WRITES])
      ensures status == 0 && offset < |value| ==>
                action == Ask(EncPrepWrite(ATT_OP_PREP_WRITE_REQ, handle, offset, value[offset..], buflen))
      ensures status == 0 && offset > |value| ==> action == Overreads
      ensures action.Execute? ==> |value| <= 0xFFFF
    {
      if status != 0 {
        return Fail(status);
      }
      offset := (offset + |rpdu| - 5) % 0x1_0000;
      if offset == |value| {
        return Execute(EncExecWriteReq(ATT_WRITE_ALL_PREP_WRITES).value);
      }
      if offset > |value| {
        return Overreads;
      }
      var pdu := PrepareWrite();
      return Ask(pdu);
    }
  }

  function Flat(parts: seq<seq<byte>>): seq<byte> {
    if parts == [] then [] else Flat(parts[..|parts| - 1]) + parts[|parts| - 1]
  }

  /** The prepare-write request for the i-th part, at the offset where the parts before it end. */
  ghost predicate IsFragment(pdu: seq<byte>, handle: uint16, parts: seq<seq<byte>>, i: nat)
    requires i < |parts|
  {
    DecPrepWriteReq(pdu) == Some((handle, |Flat(parts[..i])|, parts[i]))
  }

  /** The fragments sent so far. */
  ghost predicate Fragments(sent: seq<seq<byte>>, handle: uint16, parts: seq<seq<byte>>, most: nat) {
    && |sent| == |parts|
    && forall i :: 0 <= i < |parts| ==> 0 < |parts[i]| <= most && IsFragment(sent[i], handle, parts, i)
  }

  lemma FragmentAdded(sent: seq<seq<byte>>, handle: uint16, parts: seq<seq<byte>>, most: nat, pdu: seq<byte>,
                      part: seq<byte>)
    requires Fragments(sent, handle, parts, most) && 0 < |part| <= most
    requires DecPrepWriteReq(pdu) == Some((handle, |Flat(parts)|, part))
    ensures Fragments(sent + [pdu], handle, parts + [part], most) && Flat(parts + [part]) == Flat(parts) + part
  {
    hide DecPrepWriteReq;
    var later := parts + [part];
    assert later[..|parts|] == parts;
    assert forall i :: 0 <= i < |parts| ==> later[..i] == parts[..i];
  }

  lemma RequestDecodes(handle: uint16, offset: uint16, value: seq<byte>, len: nat)
    requires len >= 5
    ensures DecPrepWriteReq(EncPrepWrite(ATT_OP_PREP_WRITE_REQ, handle, offset, value, len))
            == Some((handle, offset, Clip(value, len - 5)))
    ensures value != [] && len > 5 ==> Clip(value, len - 5) != []
  {
    var pdu := EncPrepWrite(ATT_OP_PREP_WRITE_REQ, handle, offset, value, len);
    assert [ATT_OP_PREP_WRITE_REQ] + pdu[1..] == pdu;
  }

  /** gatt_write_char against a server that echoes every prepare-write.  A value that fits one request is written
      by one; any other is cut into non-empty fragments that follow each other without gap or overlap and make up
      the value, and one execute-write follows the last of them. */
  method Write(handle: uint16, value: seq<byte>, mtu: nat) returns (sent: seq<seq<byte>>, ghost parts: seq<seq<byte>>)
    requires mtu > 5 && |value| <= 0xFFFF
    ensures |value| <= mtu - 3 ==> sent == [[ATT_OP_WRITE_REQ] + LittleEndian16(handle) + value]
    ensures |value| > mtu - 3 ==>
              && |sent| == |parts| + 1 && Flat(parts) == value
              && (forall i :: 0 <= i < |parts| ==> 0 < |parts[i]| <= mtu - 5 && IsFragment(sent[i], handle, parts, i))
              && sent[|parts|] == [ATT_OP_EXEC_WRITE_REQ, ATT_WRITE_ALL_PREP_WRITES]
  {
    parts := [];
    if |value| <= mtu - 3 {
      return [EncWriteReq(handle, value, mtu)], [];
    }
    sent, parts := WriteFragments(handle, value, mtu);
    FragmentsSpelledOut(sent[..|parts|], handle, parts, mtu - 5);
    assert forall i :: 0 <= i < |parts| ==> sent[i] == sent[..|parts|][i];
  }

  /** One prepare-write, echoed by the server, and the callback for the echo. */
  method Round(long: WriteLong, pdu: seq<byte>) returns (action: Action, ghost part: seq<byte>)
    requires long.buflen > 5 && long.offset < |long.value| <= 0xFFFF
    requires pdu == EncPrepWrite(ATT_OP_PREP_WRITE_REQ, long.handle, long.offset,
                                 long.value[long.offset..], long.buflen)
    modifies long
    ensures 0 < |part| <= long.buflen - 5
    ensures DecPrepWriteReq(pdu) == Some((long.handle, old(long.offset), part))
    ensures long.offset == old(long.offset) + |part| <= |long.value|
    ensures long.value[..old(long.offset)] + part == long.value[..long.offset]
    ensures action == if long.offset == |long.value| then Execute([ATT_OP_EXEC_WRITE_REQ, ATT_WRITE_ALL_PREP_WRITES])
                      else Ask(EncPrepWrite(ATT_OP_PREP_WRITE_REQ, long.handle, long.offset,
                                            long.value[long.offset..], long.buflen))
  {
    hide DecPrepWriteReq, Le16At;
    RequestDecodes(long.handle, long.offset, long.value[long.offset..], long.buflen);
    var (h, o, data) := DecPrepWriteReq(pdu).value;
    var echo := EncPrepWrite(ATT_OP_PREP_WRITE_RESP, h, o, data, long.buflen);
    NextPart(long.value, o, long.buflen - 5);
    part := data;
    action := long.PrepareWriteCb(0, echo);
  }

  /** The rounds of prepare_write and prepare_write_cb. */
  method WriteFragments(handle: uint16, value: seq<byte>, mtu: nat)
    returns (sent: seq<seq<byte>>, ghost parts: seq<seq<byte>>)
    requires mtu > 5 && 0 < |value| <= 0xFFFF
    ensures |sent| == |parts| + 1 && Fragments(sent[..|parts|], handle, parts, mtu - 5) && Flat(parts) == value
    ensures sent[|parts|] == [ATT_OP_EXEC_WRITE_REQ, ATT_WRITE_ALL_PREP_WRITES]
  {
    var long := new WriteLong(handle, value, mtu);
    var pdu := long.PrepareWrite();
    var action := Ask(pdu);
    sent, parts := [], [];
    assert Flat(parts) == [] && Fragments(sent, handle, parts, mtu - 5);
    hide EncPrepWrite, DecPrepWriteReq, Fragments, Flat, Clip, Le16At;
    while action.Ask?
      invariant long.offset <= |value| && Flat(parts) == value[..long.offset]
      invariant Fragments(sent, handle, parts, mtu - 5)
      invariant action.Ask? ==>
                  && long.offset < |value|
                  && action.pdu == EncPrepWrite(ATT_OP_PREP_WRITE_REQ, handle, long.offset, value[long.offset..], mtu)
      invariant !action.Ask? ==>
                  action == Execute([ATT_OP_EXEC_WRITE_REQ, ATT_WRITE_ALL_PREP_WRITES]) && long.offset == |value|
      decreases action.Ask?, |value| - long.offset
    {
      var answer, part := Round(long, action.pdu);
      FragmentAdded(sent, handle, parts, mtu - 5, action.pdu, part);
      sent := sent + [action.pdu];
      parts := parts + [part];
      action := answer;
    }
    FragmentCount(sent, handle, parts, mtu - 5);
    sent := sent + [action.pdu];
    assert sent[..|parts|] == sent[..|sent| - 1];
  }

  lemma NextPart(value: seq<byte>, offset: nat, most: nat)
    requires offset <= |value|
    ensures var part := Clip(value[offset..], most);
            offset + |part| <= |value| && value[..offset] + part == value[..offset + |part|]
  {
  }

  lemma FragmentCount(sent: seq<seq<byte>>, handle: uint16, parts: seq<seq<byte>>, most: nat)
    requires Fragments(sent, handle, parts, most)
    ensures |sent| == |parts|
  {
  }

  lemma FragmentsSpelledOut(sent: seq<seq<byte>>, handle: uint16, parts: seq<seq<byte>>, most: nat)
    requires Fragments(sent, handle, parts, most)
    ensures |sent| == |parts|
    ensures forall i :: 0 <= i < |parts| ==> 0 < |parts[i]| <= most && IsFragment(sent[i], handle, parts, i)
  {
  }
}
