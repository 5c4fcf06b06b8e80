/** Encoders and decoders of ATT protocol data units (att.c).  A straight-line encoder is the bytes it puts at the
    start of the buffer; the ones that copy a list of elements are loops over the buffer. */
module AttPdu {
  import opened Basics
  import opened AttCodes

  /** get_le16 of two bytes of a buffer. */
  function Le16At(pdu: seq<byte>, i: nat): (n: uint16)
    requires i + 2 <= |pdu|
  {
    FromLittleEndian16(pdu[i..i + 2])
  }

  function Clip(s: seq<byte>, room: nat): (c: seq<byte>)
    ensures |c| == if |s| > room then room else |s|
    ensures c <= s
  {
    if |s| > room then s[..room] else s
  }

  // Reading

  function EncReadBlobReq(handle: uint16, offset: uint16): (pdu: seq<byte>)
    ensures DecReadBlobReq(pdu) == Some((handle, offset))
  {
    var pdu := [ATT_OP_READ_BLOB_REQ] + LittleEndian16(handle) + LittleEndian16(offset);
    assert pdu[1..3] == LittleEndian16(handle) && pdu[3..5] == LittleEndian16(offset);
    pdu
  }

  function DecReadBlobReq(pdu: seq<byte>): Option<(uint16, uint16)> {
    if |pdu| < 5 || pdu[0] != ATT_OP_READ_BLOB_REQ then None else Some((Le16At(pdu, 1), Le16At(pdu, 3)))
  }

  /** As much of the value as fits a buffer of this length. */
  function EncReadResp(value: seq<byte>, len: nat): seq<byte>
    requires len > 0
  {
    [ATT_OP_READ_RESP] + Clip(value, len - 1)
  }

  function EncReadBlobResp(value: seq<byte>, offset: nat, len: nat): seq<byte>
    requires len > 0 && offset <= |value|
  {
    [ATT_OP_READ_BLOB_RESP] + Clip(value[offset..], len - 1)
  }

  // Writing

  function EncWriteReq(handle: uint16, value: seq<byte>, len: nat): seq<byte>
    requires len >= 3
  {
    [ATT_OP_WRITE_REQ] + LittleEndian16(handle) + Clip(value, len - 3)
  }

  /** enc_prep_write_req and enc_prep_write_resp differ in the opcode only. */
  function EncPrepWrite(opcode: byte, handle: uint16, offset: uint16, value: seq<byte>, len: nat): (pdu: seq<byte>)
    requires len >= 5
    ensures |pdu| == 5 + |Clip(value, len - 5)|
    ensures DecPrepWriteReq([ATT_OP_PREP_WRITE_REQ] + pdu[1..]) == Some((handle, offset, Clip(value, len - 5)))
  {
    var fields, part := LittleEndian16(handle) + LittleEndian16(offset), Clip(value, len - 5);
    var pdu := [opcode] + fields + part;
    assert pdu[1..] == fields + part;
    var req := [ATT_OP_PREP_WRITE_REQ] + (fields + part);
    assert req[1..3] == fields[..2] == LittleEndian16(handle);
    assert req[3..5] == fields[2..] == LittleEndian16(offset);
    assert req[5..] == part;
    pdu
  }

  function DecPrepWriteReq(pdu: seq<byte>): Option<(uint16, uint16, seq<byte>)> {
    if |pdu| < 5 || pdu[0] != ATT_OP_PREP_WRITE_REQ then None
    else Some((Le16At(pdu, 1), Le16At(pdu, 3), pdu[5..]))
  }

  function EncExecWriteReq(flags: byte): Option<seq<byte>> {
    if flags > 1 then None else Some([ATT_OP_EXEC_WRITE_REQ, flags])
  }

  /** The bytes of the requests and responses above (Vol 3, Part F, sections 3.4.4 to 3.4.6): handles and offsets come
      with the low byte first. */
  lemma Layout(handle: uint16, offset: uint16, value: seq<byte>, len: nat)
    requires len >= 5
    ensures var h, o := [handle % 256, handle / 256], [offset % 256, offset / 256];
            && EncReadBlobReq(handle, offset) == [0x0C] + h + o
            && EncReadResp(value, len) == [0x0B] + value[..Min(|value|, len - 1)]
            && (offset <= |value| ==>
                  EncReadBlobResp(value, offset, len) == [0x0D] + value[offset..][..Min(|value| - offset, len - 1)])
            && EncWriteReq(handle, value, len) == [0x12] + h + value[..Min(|value|, len - 3)]
            && EncPrepWrite(ATT_OP_PREP_WRITE_REQ, handle, offset, value, len)
               == [0x16] + h + o + value[..Min(|value|, len - 5)]
            && EncPrepWrite(ATT_OP_PREP_WRITE_RESP, handle, offset, value, len)
               == [0x17] + h + o + value[..Min(|value|, len - 5)]
            && EncExecWriteReq(0x01) == Some([0x18, 0x01])
  {
    assert LittleEndian16(handle) == [handle % 256, handle / 256];
    assert LittleEndian16(offset) == [offset % 256, offset / 256];
  }

  // Lists of elements of one length

  /** The elements that fit into so much room, one after the other. */
  function Packed(data: seq<seq<byte>>, room: nat): (p: seq<byte>)
    ensures |p| <= room
  {
    if data == [] || room < |data[0]| then [] else data[0] + Packed(data[1..], room - |data[0]|)
  }

  function PackedCount(data: seq<seq<byte>>, room: nat): (k: nat)
    ensures k <= |data|
    ensures data != [] && |data[0]| <= room ==> k > 0
  {
    if data == [] || room < |data[0]| then 0 else 1 + PackedCount(data[1..], room - |data[0]|)
  }

  /** A byte string cut into pieces of this length; a shorter rest is dropped. */
  function Chunks(s: seq<byte>, len: nat): (c: seq<seq<byte>>)
    requires len > 0
    ensures forall e <- c :: |e| == len
  {
    if |s| < len then [] else [s[..len]] + Chunks(s[len..], len)
  }

  /** n / d and n % d, by subtracting. */
  function Quotient(n: nat, d: nat): nat
    requires d > 0
  {
    if n < d then 0 else 1 + Quotient(n - d, d)
  }

  function Remainder(n: nat, d: nat): (r: nat)
    requires d > 0
    ensures r < d
  {
    if n < d then n else Remainder(n - d, d)
  }

  /** These are the operators of C on non-negative numbers. */
  lemma {:induction false} Division(n: nat, d: nat)
    requires d > 0
    ensures Quotient(n, d) == n / d && Remainder(n, d) == n % d
  {
    if n < d {
      SmallDivision(n, d);
    } else {
      Division(n - d, d);
      DivisionStep(n, d);
    }
  }

  lemma SmallDivision(n: nat, d: nat)
    requires n < d
    ensures n / d == 0 && n % d == n
  {
  }

  lemma DivisionStep(n: nat, d: nat)
    requires 0 < d <= n
    ensures n / d == 1 + (n - d) / d && n % d == (n - d) % d
  {
    var q, r := (n - d) / d, (n - d) % d;
    assert n == (q + 1) * d + r;
    UniqueDivision(n, d, q + 1, r);
  }

  lemma UniqueDivision(n: nat, d: nat, q: nat, r: nat)
    requires r < d && n == q * d + r
    ensures n / d == q && n % d == r
  {
    var p, s := n / d, n % d;
    assert n == p * d + s;
    if p < q {
      Larger(p, q, d);
    } else if q < p {
      Larger(q, p, d);
    }
  }

  lemma {:induction false} Larger(p: nat, q: nat, d: nat)
    requires p < q
    ensures q * d >= p * d + d
    decreases q
  {
    OnceMore(q - 1, d);
    if p < q - 1 {
      Larger(p, q - 1, d);
    }
  }

  lemma OnceMore(q: nat, d: nat)
    ensures (q + 1) * d == q * d + d
  {
  }

  /** Cutting up what was packed gives back the elements that fitted. */
  lemma {:induction false} ChunksOfPacked(data: seq<seq<byte>>, room: nat, len: nat)
    requires len > 0 && forall e <- data :: |e| == len
    ensures Chunks(Packed(data, room), len) == data[..PackedCount(data, room)]
    ensures Quotient(|Packed(data, room)|, len) == PackedCount(data, room)
    ensures Remainder(|Packed(data, room)|, len) == 0
    decreases |data|
  {
    if data != [] && room >= |data[0]| {
      var rest := Packed(data[1..], room - |data[0]|);
      ChunksOfPacked(data[1..], room - |data[0]|, len);
      assert (data[0] + rest)[len..] == rest && (data[0] + rest)[..len] == data[0];
      assert data[..PackedCount(data, room)] == [data[0]] + data[1..][..PackedCount(data, room) - 1];
    }
  }

  /** The loop of enc_read_by_grp_resp, enc_find_info_resp and enc_find_by_type_resp: elements are copied from
      position w on while the next one fits. */
  method EncodeList(data: seq<seq<byte>>, elen: nat, pdu: array<byte>, start: nat, len: nat) returns (w: nat)
    requires elen > 0 && forall e <- data :: |e| == elen
    requires start <= len <= pdu.Length
    modifies pdu
    ensures w == start + |Packed(data, len - start)|
    ensures pdu[..w] == old(pdu[..start]) + Packed(data, len - start)
  {
    hide Packed;
    w := start;
    var i := 0;
    assert data[0..] == data;
    ghost var left := Packed(data[i..], len - w);
    ghost var whole := pdu[..w] + left;
    while i < |data| && w + elen <= len
      invariant i <= |data| && start <= w <= len
      invariant left == Packed(data[i..], len - w)
      invariant pdu[..w] + left == whole
      decreases |data| - i
    {
      ghost var done := pdu[..w];
      NextPacked(data, i, len - w);
      Copy(data[i], pdu, w);
      w := w + elen;
      i := i + 1;
      ghost var next := Packed(data[i..], len - w);
      Associate(done, data[i - 1], next);
      left := next;
    }
    NextPacked(data, i, len - w);
    assert pdu[..w] + [] == pdu[..w];
  }

  lemma Associate<T>(a: seq<T>, b: seq<T>, c: seq<T>)
    ensures a + (b + c) == (a + b) + c
  {
  }

  lemma NextPacked(data: seq<seq<byte>>, i: nat, room: nat)
    requires i <= |data|
    ensures i == |data| || |data[i]| > room ==> Packed(data[i..], room) == []
    ensures i < |data| && |data[i]| <= room ==>
              Packed(data[i..], room) == data[i] + Packed(data[i + 1..], room - |data[i]|)
    ensures i < |data| ==> data[i] in data
  {
    if i < |data| {
      assert data[i..][1..] == data[i + 1..];
    }
  }

  /** memcpy. */
  method Copy(s: seq<byte>, pdu: array<byte>, at: nat)
    requires at + |s| <= pdu.Length
    modifies pdu
    ensures pdu[..at + |s|] == old(pdu[..at]) + s
  {
    forall k | 0 <= k < |s| {
      pdu[at + k] := s[k];
    }
  }

  /** The loop of the matching decoders over the num elements that were found to be there. */
  method DecodeList(pdu: seq<byte>, start: nat, elen: nat, num: nat) returns (data: seq<seq<byte>>)
    requires elen > 0 && start <= |pdu|
    requires num == Quotient(|pdu| - start, elen)
    ensures data == Chunks(pdu[start..], elen) && |data| == num
  {
    hide Chunks, Quotient;
    data := [];
    ghost var all := Chunks(pdu[start..], elen);
    ghost var left := all;
    var ptr := start;
    for i := 0 to num
      invariant start <= ptr <= |pdu|
      invariant num - i == Quotient(|pdu| - ptr, elen)
      invariant left == Chunks(pdu[ptr..], elen)
      invariant data + left == all && |data| == i
    {
      NextChunk(pdu, ptr, elen);
      ghost var next := Chunks(pdu[ptr + elen..], elen);
      AppendFirst(data, pdu[ptr..ptr + elen], next);
      data := data + [pdu[ptr..ptr + elen]];
      ptr := ptr + elen;
      left := next;
    }
    NoChunk(pdu, ptr, elen);
    assert data + [] == data;
  }

  lemma AppendFirst<T>(s: seq<T>, x: T, rest: seq<T>)
    ensures s + ([x] + rest) == (s + [x]) + rest
  {
  }

  lemma NoChunk(pdu: seq<byte>, ptr: nat, elen: nat)
    requires elen > 0 && ptr <= |pdu| && Quotient(|pdu| - ptr, elen) == 0
    ensures Chunks(pdu[ptr..], elen) == []
  {
  }

  lemma NextChunk(pdu: seq<byte>, ptr: nat, elen: nat)
    requires elen > 0 && ptr <= |pdu| && Quotient(|pdu| - ptr, elen) > 0
    ensures ptr + elen <= |pdu| && Quotient(|pdu| - ptr, elen) == 1 + Quotient(|pdu| - (ptr + elen), elen)
    ensures Chunks(pdu[ptr..], elen) == [pdu[ptr..ptr + elen]] + Chunks(pdu[ptr + elen..], elen)
  {
    assert pdu[ptr..][elen..] == pdu[ptr + elen..] && pdu[ptr..][..elen] == pdu[ptr..ptr + elen];
  }
}
