/** Reading a characteristic value of any length (gatt.c; Bluetooth Core Vol 3, Part G, section 4.8.3). */
module LongRead {
  import opened Basics
  import opened AttCodes
  import opened AttPdu

  /** What a callback does: send another request, or hand the result to the caller. */
  datatype Action = Ask(pdu: seq<byte>) | Finish(status: byte, data: seq<byte>)

  /** struct read_long_data; buflen is the length of the channel's buffer, the MTU. */
  class ReadLong {
    const handle: uint16
    const buflen: nat
    var buffer: seq<byte>
    var size: uint16

    constructor (handle: uint16, buflen: nat)
      ensures this.handle == handle && this.buflen == buflen && buffer == [] && size == 0
    {
      this.handle, this.buflen, buffer, size := handle, buflen, [], 0;
    }

    /** read_char_helper; accepted says whether the next request could be queued. */
    method ReadCharHelper(status: byte, rpdu: seq<byte>, accepted: bool) returns (action: Action)
      requires |rpdu| <= 0xFFFF && (status == 0 ==> rpdu != [])
      modifies this
      ensures status != 0 || |rpdu| < buflen ==> action == Finish(status, rpdu)
      ensures status == 0 && |rpdu| >= buflen ==>
                && buffer == rpdu && size == |rpdu|
                && action == if accepted then Ask(EncReadBlobReq(handle, |rpdu| - 1)) else Finish(ATT_ECODE_IO, rpdu)
    {
      if status != 0 || |rpdu| < buflen {
        return Finish(status, rpdu);
      }
      buffer := rpdu;
      size := |rpdu|;
      if accepted {
        return Ask(EncReadBlobReq(handle, |rpdu| - 1));
      }
      return Finish(ATT_ECODE_IO, rpdu);
    }

    /** read_blob_helper.  An error ends the procedure like the end of the value does: with what there is. */
    method ReadBlobHelper(status: byte, rpdu: seq<byte>, accepted: bool) returns (action: Action)
      requires size == |buffer| > 0
      requires status == 0 ==> rpdu != [] && |buffer| + |rpdu| - 1 <= 0xFFFF
      modifies this
      ensures size == |buffer|
      ensures status != 0 || |rpdu| == 1 ==> buffer == old(buffer) && action == Finish(0, buffer)
      ensures status == 0 && |rpdu| > 1 ==>
                && buffer == old(buffer) + rpdu[1..]
                && action == if |rpdu| < buflen then Finish(0, buffer)
                             else if accepted then Ask(EncReadBlobReq(handle, |buffer| - 1))
                             else Finish(ATT_ECODE_IO, buffer)
    {
      if status != 0 || |rpdu| == 1 {
        return Finish(0, buffer);
      }
      buffer := buffer + rpdu[1..];
      size := size + |rpdu| - 1;
      if |rpdu| < buflen {
        return Finish(0, buffer);
      }
      if accepted {
        return Ask(EncReadBlobReq(handle, size - 1));
      }
      return Finish(ATT_ECODE_IO, buffer);
    }
  }

  /** A blob response continues what was read, and ends the procedure exactly when it reaches the end. */
  lemma NextBlob(value: seq<byte>, buffer: seq<byte>, mtu: nat)
    requires mtu >= 2 && buffer != [] && buffer <= [ATT_OP_READ_RESP] + value
    ensures var whole, r := [ATT_OP_READ_RESP] + value, EncReadBlobResp(value, |buffer| - 1, mtu);
            && 0 < |r| <= mtu && buffer + r[1..] <= whole && |buffer| + |r| - 1 <= |whole|
            && (|r| < mtu ==> buffer + r[1..] == whole)
  {
    var whole, r := [ATT_OP_READ_RESP] + value, EncReadBlobResp(value, |buffer| - 1, mtu);
    assert buffer + r[1..] == whole[..|buffer| + |r| - 1];
  }

  /** How many of total bytes arrive: in steps of so many from read on, up to the first round that fails. */
  function Arrived(total: nat, read: nat, step: nat, faults: seq<byte>): (n: nat)
    requires read <= total
    ensures read <= n <= total
    decreases |faults|
  {
    if faults == [] then total
    else if faults[0] != 0 then read
    else Arrived(total, if read + step <= total then read + step else total, step, faults[1..])
  }

  /** The offset in the value at which a blob round reads. */
  function BlobStart(round: nat, mtu: nat): nat
    requires mtu > 0
  {
    (round + 1) * (mtu - 1)
  }

  lemma BlobStarts(i: nat, mtu: nat)
    requires mtu > 0
    ensures BlobStart(0, mtu) == mtu - 1 && BlobStart(i + 1, mtu) == BlobStart(i, mtu) + (mtu - 1)
  {
  }

  lemma {:induction false} BlobStartsRise(i: nat, j: nat, mtu: nat)
    requires mtu > 0 && i <= j
    ensures BlobStart(i, mtu) <= BlobStart(j, mtu)
  {
    hide BlobStart;
    if i < j {
      BlobStarts(j - 1, mtu);
      BlobStartsRise(i, j - 1, mtu);
    }
  }

  /** Every blob round from round i on that reads before the end of a value of this size succeeds. */
  ghost predicate Harmless(faults: seq<byte>, i: nat, size: nat, mtu: nat)
    requires mtu > 0
  {
    forall j :: i <= j < |faults| && BlobStart(j, mtu) < size ==> faults[j] == 0
  }

  /** All of the value arrives exactly when that is so. */
  lemma {:induction false} AllArrives(faults: seq<byte>, i: nat, size: nat, mtu: nat)
    requires mtu > 0
    ensures Arrived(1 + size, Min(1 + BlobStart(i, mtu), 1 + size), mtu - 1, From(faults, i)) == 1 + size
            <==> Harmless(faults, i, size, mtu)
    decreases |faults| - i
  {
    hide BlobStart;
    BlobStarts(i, mtu);
    if i < |faults| {
      assert faults[i..][1..] == faults[i + 1..];
      AllArrives(faults, i + 1, size, mtu);
      forall j | i <= j < |faults|
        ensures BlobStart(i, mtu) <= BlobStart(j, mtu)
      {
        BlobStartsRise(i, j, mtu);
      }
    }
  }

  /** The faults of the rounds to come. */
  function From(faults: seq<byte>, i: nat): seq<byte> {
    if i <= |faults| then faults[i..] else []
  }

  /** The procedure against a server that holds a fixed value and encodes its responses with enc_read_resp and
      enc_read_blob_resp for the same MTU.  faults are the statuses of the blob rounds, one each; there is none
      after the end.  The final callback gets success and the bytes that arrived: the opcode byte followed by the
      whole value exactly when every blob round that starts before the end of the value succeeds, whether or not its
      length is a multiple of the chunk size. */
  method Read(handle: uint16, value: seq<byte>, mtu: nat, faults: seq<byte>)
    returns (status: byte, data: seq<byte>, rounds: nat)
    requires mtu >= 2 && |value| < 0xFFFF
    ensures status == 0
    ensures |value| < mtu - 1 ==> data == [ATT_OP_READ_RESP] + value && rounds == 0
    ensures |value| >= mtu - 1 ==>
              data == ([ATT_OP_READ_RESP] + value)[..Arrived(1 + |value|, mtu, mtu - 1, faults)]
    ensures data == [ATT_OP_READ_RESP] + value <==> Harmless(faults, 0, |value|, mtu)
    ensures rounds > 0 ==> BlobStart(rounds - 1, mtu) <= |value|
  {
    ghost var whole := [ATT_OP_READ_RESP] + value;
    var long := new ReadLong(handle, mtu);
    var rpdu := EncReadResp(value, mtu);
    assert rpdu == whole[..|rpdu|];
    var action := long.ReadCharHelper(0, rpdu, true);
    rounds := 0;
    WholeExactly(value, mtu, faults);
    if action.Ask? {
      action, rounds := BlobRounds(long, value, faults, action);
    }
    return action.status, action.data, rounds;
  }

  lemma WholeExactly(value: seq<byte>, mtu: nat, faults: seq<byte>)
    requires mtu > 0
    ensures |value| >= mtu - 1 ==>
              (([ATT_OP_READ_RESP] + value)[..Arrived(1 + |value|, mtu, mtu - 1, faults)] == [ATT_OP_READ_RESP] + value
               <==> Harmless(faults, 0, |value|, mtu))
    ensures |value| < mtu - 1 ==> Harmless(faults, 0, |value|, mtu)
  {
    hide BlobStart;
    BlobStarts(0, mtu);
    forall j | 0 <= j < |faults|
      ensures BlobStart(0, mtu) <= BlobStart(j, mtu)
    {
      BlobStartsRise(0, j, mtu);
    }
    if |value| >= mtu - 1 {
      var whole, n := [ATT_OP_READ_RESP] + value, Arrived(1 + |value|, mtu, mtu - 1, faults);
      assert faults[0..] == faults;
      AllArrives(faults, 0, |value|, mtu);
      assert whole[..n] == whole <==> n == |whole|;
    }
  }

  /** The rounds of read_blob_helper after a full first response. */
  method BlobRounds(long: ReadLong, value: seq<byte>, faults: seq<byte>, first: Action)
    returns (action: Action, rounds: nat)
    requires long.buflen >= 2 && long.buflen <= 1 + |value| < 0x1_0000
    requires long.size == |long.buffer| == long.buflen && long.buffer <= [ATT_OP_READ_RESP] + value
    requires first == Ask(EncReadBlobReq(long.handle, long.buflen - 1))
    modifies long
    ensures action == Finish(0, ([ATT_OP_READ_RESP] + value)
                                [..Arrived(1 + |value|, long.buflen, long.buflen - 1, faults)])
    ensures rounds > 0 ==> BlobStart(rounds - 1, long.buflen) <= |value|
  {
    hide EncReadBlobResp, EncReadBlobReq, DecReadBlobReq, Arrived, BlobStart, From;
    ghost var whole, step := [ATT_OP_READ_RESP] + value, long.buflen - 1;
    ghost var arrived := Arrived(|whole|, long.buflen, step, faults);
    action, rounds := first, 0;
    ghost var read := long.buflen;
    BlobStarts(0, long.buflen);
    FromStart(faults);
    while action.Ask?
      invariant action.Ask? ==>
                  && long.size == |long.buffer| == read <= |whole| && long.buffer <= whole && read > 0
                  && action.pdu == EncReadBlobReq(long.handle, read - 1)
                  && arrived == Arrived(|whole|, read, step, From(faults, rounds))
                  && read - 1 == BlobStart(rounds, long.buflen)
      invariant action.Finish? ==> action == Finish(0, whole[..arrived])
      invariant rounds > 0 ==> BlobStart(rounds - 1, long.buflen) <= |value|
      decreases action.Ask?, |whole| - read
    {
      var asked := DecReadBlobReq(action.pdu).value;
      var rpdu := EncReadBlobResp(value, asked.1, long.buflen);
      NextBlob(value, long.buffer, long.buflen);
      var fault := if rounds < |faults| then faults[rounds] else 0;
      NextFault(|whole|, read, step, faults, rounds);
      action := long.ReadBlobHelper(fault, rpdu, true);
      BlobStarts(rounds, long.buflen);
      rounds := rounds + 1;
      read := read + step;
    }
  }

  lemma FromStart(faults: seq<byte>)
    ensures From(faults, 0) == faults
  {
  }

  /** One round of it. */
  lemma NextFault(total: nat, read: nat, step: nat, faults: seq<byte>, i: nat)
    requires read <= total
    ensures var fault := if i < |faults| then faults[i] else 0;
            var arrived := Arrived(total, read, step, From(faults, i));
            && (fault != 0 ==> arrived == read)
            && (fault == 0 && read + step <= total ==>
                  arrived == Arrived(total, read + step, step, From(faults, i + 1)))
            && (fault == 0 && read + step >= total ==> arrived == total)
  {
    if i < |faults| {
      assert faults[i..][1..] == faults[i + 1..];
      if faults[i] == 0 && read + step >= total {
        AtTheEnd(total, step, faults[i + 1..]);
      }
    }
  }

  lemma {:induction false} AtTheEnd(total: nat, step: nat, faults: seq<byte>)
    ensures Arrived(total, total, step, faults) == total
  {
  }

  /** A value of thirty bytes over the default MTU whose only blob round fails: of the thirty-one bytes of the result
      twenty-three arrive, and success is reported. */
  lemma SwallowedErrorExample()
    ensures Arrived(31, 23, 22, [0x0E]) == 23 && !Harmless([0x0E], 0, 30, 23)
  {
    assert BlobStart(0, 23) < 30 && [0x0E][0] != 0;
  }
}
