/** The variable-length "remaining length" field of MQTT 3.1.1, section 2.2.3 (MQTTPacket.c). */
module RemainingLength {
  import opened Basics

  const MAX_REMAINING_LENGTH: nat := 268435455
  const MAX_LENGTH_BYTES: nat := 4

  /** Seven bits a byte, least significant group first, top bit set on all but the last. */
  function Encoding(n: nat): (s: seq<byte>)
    ensures s != []
  {
    if n < 128 then [n] else [n % 128 + 128] + Encoding(n / 128)
  }

  /** The number of bytes a packet with this remaining length occupies on the wire. */
  function WireSize(n: nat): nat {
    1 + |Encoding(n)| + n
  }

  /** What MQTTPacket_decode computes from the bytes that follow: the number of reads it attempted and the
      value accumulated.  The read that is refused (a fifth one) or that fails (no byte left) is counted too. */
  function Decoding(s: seq<byte>, attempts: nat := MAX_LENGTH_BYTES): (r: (nat, nat))
    ensures 1 <= r.0 <= attempts + 1
    decreases attempts
  {
    if attempts == 0 || s == [] then (1, 0)
    else if s[0] < 128 then (1, s[0])
    else
      var rest := Decoding(s[1..], attempts - 1);
      (1 + rest.0, s[0] - 128 + 128 * rest.1)
  }

  /** A length field that ends within the permitted number of bytes. */
  predicate Terminated(s: seq<byte>, attempts: nat := MAX_LENGTH_BYTES)
    decreases attempts
  {
    attempts > 0 && s != [] && (s[0] < 128 || Terminated(s[1..], attempts - 1))
  }

  function Power128(k: nat): (p: nat)
    ensures p > 0
  {
    if k == 0 then 1 else 128 * Power128(k - 1)
  }

  lemma {:induction false} EncodingSize(n: nat, k: nat)
    requires k > 0
    ensures |Encoding(n)| <= k <==> n < Power128(k)
    decreases k
  {
    if n >= 128 && k > 1 {
      EncodingSize(n / 128, k - 1);
    }
  }

  /** The bounds of table 2.4 of section 2.2.3, and the example given there. */
  lemma TableOfSizes()
    ensures Encoding(0) == [0x00] && Encoding(127) == [0x7F]
    ensures Encoding(128) == [0x80, 0x01] && Encoding(16383) == [0xFF, 0x7F]
    ensures Encoding(16384) == [0x80, 0x80, 0x01] && Encoding(2097151) == [0xFF, 0xFF, 0x7F]
    ensures Encoding(2097152) == [0x80, 0x80, 0x80, 0x01] && Encoding(268435455) == [0xFF, 0xFF, 0xFF, 0x7F]
    ensures Encoding(321) == [0xC1, 0x02]
  {
    assert Encoding(1) == [1] && Encoding(2) == [2];
    assert Encoding(16383) == [255] + Encoding(127) && Encoding(16384) == [128] + Encoding(128);
    assert Encoding(2097151) == [255] + Encoding(16383) && Encoding(2097152) == [128] + Encoding(16384);
    assert Encoding(268435455) == [255] + Encoding(2097151);
  }

  /** A fifth byte is refused, after the four read have been added up. */
  lemma FifthByteRefused(s: seq<byte>)
    requires |s| >= 4 && s[0] >= 128 && s[1] >= 128 && s[2] >= 128 && s[3] >= 128
    ensures var a: nat, b: nat, c: nat, d: nat := s[0] - 128, s[1] - 128, s[2] - 128, s[3] - 128;
            Decoding(s).0 == 5 && Decoding(s).1 == a + 128 * b + 16384 * c + 2097152 * d
  {
    var s1, s2, s3, s4 := s[1..], s[2..], s[3..], s[4..];
    assert s1[1..] == s2 && s2[1..] == s3 && s3[1..] == s4;
    assert Decoding(s4, 0) == (1, 0);
    assert Decoding(s3, 1).0 == 2 && Decoding(s2, 2).0 == 3;
  }

  lemma SizeClasses(n: nat)
    ensures |Encoding(n)| <= 1 <==> n < 128
    ensures |Encoding(n)| <= 2 <==> n < 16384
    ensures |Encoding(n)| <= 3 <==> n < 2097152
    ensures |Encoding(n)| <= 4 <==> n <= MAX_REMAINING_LENGTH
  {
    assert Power128(0) == 1 && Power128(1) == 128 && Power128(2) == 16384;
    assert Power128(3) == 2097152 && Power128(4) == 268435456;
    EncodingSize(n, 1);
    EncodingSize(n, 2);
    EncodingSize(n, 3);
    EncodingSize(n, 4);
  }

  /** Decoding what was encoded yields the length if the bytes that may be read are enough for it, and
      otherwise a smaller number. */
  lemma {:induction false} DecodeEncodedPrefix(n: nat, rest: seq<byte>, attempts: nat)
    requires attempts > 0
    ensures Decoding(Encoding(n) + rest, attempts).1 < Power128(attempts)
    ensures n < Power128(attempts) ==>
              && Decoding(Encoding(n) + rest, attempts) == (|Encoding(n)|, n)
              && Terminated(Encoding(n) + rest, attempts)
    decreases attempts
  {
    var s := Encoding(n) + rest;
    if n >= 128 {
      assert s[1..] == Encoding(n / 128) + rest;
      if attempts > 1 {
        DecodeEncodedPrefix(n / 128, rest, attempts - 1);
      }
    }
  }

  /** Decoding inverts encoding on exactly the lengths MQTT allows, whatever follows the field. */
  lemma DecodeInvertsEncode(n: nat, rest: seq<byte>)
    ensures Decoding(Encoding(n) + rest) == (|Encoding(n)|, n) <==> n <= MAX_REMAINING_LENGTH
    ensures n <= MAX_REMAINING_LENGTH ==> Terminated(Encoding(n) + rest)
  {
    assert Power128(1) == 128 && Power128(2) == 16384 && Power128(3) == 2097152 && Power128(4) == 268435456;
    DecodeEncodedPrefix(n, rest, MAX_LENGTH_BYTES);
  }

  /** No terminated field that stands for n is shorter than the encoding of n. */
  lemma {:induction false} EncodingIsMinimal(s: seq<byte>, attempts: nat)
    requires Terminated(s, attempts)
    ensures |Encoding(Decoding(s, attempts).1)| <= Decoding(s, attempts).0 <= |s|
    decreases attempts
  {
    if s[0] >= 128 {
      EncodingIsMinimal(s[1..], attempts - 1);
      var v := Decoding(s[1..], attempts - 1).1;
      assert (s[0] - 128 + 128 * v) / 128 == v;
    }
  }

  /** A terminated field is read to its end and no further. */
  lemma {:induction false} DecodingReadsOnlyTheField(s: seq<byte>, rest: seq<byte>, attempts: nat)
    requires Terminated(s, attempts)
    ensures Decoding(s, attempts).0 <= |s|
    ensures Decoding(s + rest, attempts) == Decoding(s, attempts)
    ensures Terminated(s + rest, attempts)
    decreases attempts
  {
    if s[0] >= 128 {
      assert (s + rest)[1..] == s[1..] + rest;
      DecodingReadsOnlyTheField(s[1..], rest, attempts - 1);
    }
  }

  /** By how much MQTTPacket_len over-estimates. */
  function Slack(remLen: nat): nat {
    if remLen in {127, 16383, 2097150, 2097151} then 1 else 0
  }

  lemma {:induction false} EncodingInjective(m: nat, n: nat)
    ensures Encoding(m) == Encoding(n) <==> m == n
  {
    if m >= 128 && n >= 128 {
      EncodingInjective(m / 128, n / 128);
      assert ([m % 128 + 128] + Encoding(m / 128))[1..] == Encoding(m / 128);
      assert ([n % 128 + 128] + Encoding(n / 128))[1..] == Encoding(n / 128);
    } else {
      assert m < 128 ==> Encoding(m)[0] == m;
      assert n < 128 ==> Encoding(n)[0] == n;
    }
  }

  /** MQTTPacket_len.  Its thresholds are compared after the header byte was added (and the last one is one
      short), so it over-estimates by one just below a threshold; it is too small only past the MQTT limit. */
  function PacketLen(remLen: nat): (r: nat)
    ensures WireSize(remLen) <= r <==> remLen <= MAX_REMAINING_LENGTH
    ensures r == WireSize(remLen) + 1 <==> remLen in {127, 16383, 2097150, 2097151}
    ensures remLen <= MAX_REMAINING_LENGTH ==> r == WireSize(remLen) + Slack(remLen)
    ensures r <= WireSize(remLen) + 1
  {
    SizeClasses(remLen);
    var n := remLen + 1;
    if n < 128 then n + 1
    else if n < 16384 then n + 2
    else if n < 2097151 then n + 3
    else n + 4
  }

  /** MQTTPacket_encode: writes the field at buf[at..] and returns the number of bytes written. */
  method Encode(buf: array<byte>, at: nat, length: nat) returns (rc: nat)
    requires at + |Encoding(length)| <= buf.Length
    modifies buf
    ensures rc == |Encoding(length)|
    ensures buf[at..at + rc] == Encoding(length)
    ensures forall i :: 0 <= i < at || at + rc <= i < buf.Length ==> buf[i] == old(buf[i])
  {
    ghost var field := Encoding(length);
    var rest, more := length, true;
    rc := 0;
    while more
      invariant rc <= |field| && (more <==> rc < |field|)
      invariant more ==> field[rc..] == Encoding(rest)
      invariant forall i :: 0 <= i < rc ==> buf[at + i] == field[i]
      invariant forall i :: 0 <= i < at || at + rc <= i < buf.Length ==> buf[i] == old(buf[i])
      decreases |field| - rc
    {
      assert Encoding(rest) == [field[rc]] + field[rc + 1..];
      var d := rest % 128;
      rest := rest / 128;
      if rest > 0 {
        d := d + 128;
      }
      buf[at + rc] := d;
      rc := rc + 1;
      more := rest > 0;
    }
  }

  /** v shifted left by k groups of seven bits. */
  function Shifted(v: nat, k: nat): nat {
    if k == 0 then v else 128 * Shifted(v, k - 1)
  }

  lemma {:induction false} ShiftedIsProduct(v: nat, k: nat)
    ensures Shifted(v, k) == v * Power128(k)
  {
    if k > 0 {
      ShiftedIsProduct(v, k - 1);
      assert 128 * (v * Power128(k - 1)) == v * (128 * Power128(k - 1));
    }
  }

  lemma {:induction false} ShiftedSum(d: nat, v: nat, k: nat)
    ensures Shifted(d + 128 * v, k) == Shifted(d, k) + Shifted(v, k + 1)
  {
    if k > 0 {
      ShiftedSum(d, v, k - 1);
    }
  }

  /** The contribution of the next byte, and of the bytes after it. */
  lemma NextDigit(s: seq<byte>, attempts: nat, k: nat, digit: nat)
    requires attempts > 0 && s != []
    requires digit == if s[0] < 128 then s[0] else s[0] - 128
    ensures Shifted(Decoding(s, attempts).1, k)
            == digit * Power128(k) + if s[0] < 128 then 0 else Shifted(Decoding(s[1..], attempts - 1).1, k + 1)
  {
    ShiftedIsProduct(digit, k);
    ShiftedSum(digit, Decoding(s[1..], attempts - 1).1, k);
  }

  lemma StartOfNumber(v: nat, k: nat)
    ensures Power128(0) == 1 && Shifted(v, 0) == v
    ensures Shifted(0, k) == 0
    ensures Power128(k + 1) == 128 * Power128(k)
  {
    ShiftedIsProduct(0, k);
  }

  /** One round of the loop over a field of which len bytes are read. */
  lemma DecodeRound(s: seq<byte>, len: nat)
    requires len < MAX_LENGTH_BYTES && len <= |s|
    ensures var here := Decoding(s[len..], MAX_LENGTH_BYTES - len);
            if len == |s| then here == (1, 0)
            else
              var digit: nat := if s[len] < 128 then s[len] else s[len] - 128;
              var next := Decoding(s[len + 1..], MAX_LENGTH_BYTES - (len + 1));
              && here.0 == 1 + (if s[len] < 128 then 0 else next.0)
              && Shifted(here.1, len)
                 == digit * Power128(len) + if s[len] < 128 then 0 else Shifted(next.1, len + 1)
  {
    if len < |s| {
      var digit: nat := if s[len] < 128 then s[len] else s[len] - 128;
      NextDigit(s[len..], MAX_LENGTH_BYTES - len, len, digit);
      assert s[len..][1..] == s[len + 1..];
    }
  }

  /** MQTTPacket_decode over the bytes a getchar function can still supply. */
  method Decode(s: seq<byte>) returns (len: nat, value: nat)
    ensures (len, value) == Decoding(s)
  {
    hide Decoding, Shifted, Power128;
    var multiplier := 1;
    len, value := 0, 0;
    StartOfNumber(Decoding(s).1, 0);
    assert s[0..] == s;
    while true
      invariant len <= MAX_LENGTH_BYTES && len <= |s|
      invariant multiplier == Power128(len)
      invariant Decoding(s).0 == len + Decoding(s[len..], MAX_LENGTH_BYTES - len).0
      invariant Decoding(s).1 == value + Shifted(Decoding(s[len..], MAX_LENGTH_BYTES - len).1, len)
      decreases MAX_LENGTH_BYTES - len
    {
      ghost var before := len;
      StartOfNumber(0, before);
      if before < MAX_LENGTH_BYTES {
        DecodeRound(s, before);
      } else {
        NoAttempts(s[before..]);
      }
      len := len + 1;
      if len > MAX_LENGTH_BYTES || len > |s| {
        break;
      }
      var c := s[len - 1];
      var digit: nat := if c < 128 then c else c - 128;
      value := value + digit * multiplier;
      multiplier := multiplier * 128;
      if c < 128 {
        break;
      }
    }
  }

  lemma NoAttempts(s: seq<byte>)
    ensures Decoding(s, 0) == (1, 0)
  {
  }
}
