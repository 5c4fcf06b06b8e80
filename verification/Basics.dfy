/** Bytes, 16-bit fields and the small wrappers shared by the other modules. */
module Basics {

  type byte = x: int | 0 <= x < 256

  type uint16 = x: nat | x <= 0xFFFF

  type uint32 = x: nat | x <= 0xFFFF_FFFF

  datatype Option<+T> = None | Some(value: T)

  /** The outcome of reading a packet out of memory.  Rejected is the reader's own error exit, with the return
      code it leaves with; Overrun marks the inputs on which the C code would read, or point, past the end of
      the memory it was given. */
  datatype Parsed<+T> = Parsed(value: T) | Rejected(rc: int) | Overrun {
    predicate IsFailure() {
      !Parsed?
    }

    function PropagateFailure<U>(): Parsed<U>
      requires IsFailure()
    {
      if Rejected? then Rejected(rc) else Overrun
    }

    /** The same outcome inside a reader whose return code stands at rc. */
    function Leaving(rc: int): (r: Parsed<T>)
      ensures r.Rejected? ==> r.rc == rc
    {
      if Rejected? then Rejected(rc) else this
    }

    function Extract(): T
      requires Parsed?
    {
      value
    }
  }

  function Min(a: nat, b: nat): nat {
    if a < b then a else b
  }

  /** What writeInt stores: the conversion to unsigned char keeps the low eight bits of each half. */
  function BigEndian16(n: nat): (s: seq<byte>)
    ensures |s| == 2
    ensures n <= 0xFFFF <==> FromBigEndian16(s) == n
  {
    [(n / 256) % 256, n % 256]
  }

  /** readInt. */
  function FromBigEndian16(s: seq<byte>): (n: nat)
    requires |s| == 2
    ensures n <= 0xFFFF
  {
    var high: int, low: int := s[0], s[1];
    256 * high + low
  }

  /** What put_le16 stores; get_le16 is its inverse on 16-bit values. */
  function LittleEndian16(n: nat): (s: seq<byte>)
    ensures |s| == 2
    ensures n <= 0xFFFF ==> FromLittleEndian16(s) == n
  {
    [n % 256, (n / 256) % 256]
  }

  function FromLittleEndian16(s: seq<byte>): (n: nat)
    requires |s| == 2
    ensures n <= 0xFFFF
  {
    var low: int, high: int := s[0], s[1];
    low + 256 * high
  }

  /** A byte read through a signed char. */
  function SignedChar(b: byte): int {
    if b < 128 then b else b - 256
  }

  /** An int stored through a char. */
  function TruncateToByte(n: int): (b: byte)
    ensures -128 <= n < 128 <==> SignedChar(b) == n
  {
    n % 256
  }

  /** A packet split at a field, with whatever follows the packet in memory. */
  lemma Regroup<T>(before: seq<T>, field: seq<T>, after: seq<T>, rest: seq<T>)
    ensures before + (field + after) + rest == before + field + (after + rest)
    ensures before + (field + after) + rest == before + field + after + rest
  {
  }

  lemma Slice<T>(before: seq<T>, field: seq<T>, after: seq<T>)
    ensures (before + field + after)[|before|..|before| + |field|] == field
  {
  }

  lemma SliceOfSlice<T>(s: seq<T>, a: nat, b: nat, c: nat, d: nat)
    requires a <= b <= |s| && c <= d <= b - a
    ensures s[a..b][c..d] == s[a + c..a + d]
  {
    forall i | 0 <= i < d - c
      ensures s[a..b][c..d][i] == s[a + c..a + d][i]
    {
      assert s[a..b][c + i] == s[a + c + i];
    }
  }
}
