/** Files of fixed-size records with holes, as LinuxPersistent keeps them on the SD card, and the file numbers that
    name a client's files (LinuxPersistent.h).  A file that does not exist reads as an empty one; opening for writing
    creates it and does not truncate it. */
module SlotFile {
  const MAXIMUM_TOPIC_NAME_LENGTH := 255

  /** seek to a slot and write one record: in place, or right behind the last one. */
  function Put<T>(file: seq<T>, slot: nat, record: T): (f: seq<T>)
    requires slot <= |file|
    ensures |f| == if slot == |file| then |file| + 1 else |file|
    ensures f[slot] == record
    ensures forall i :: 0 <= i < |file| && i != slot ==> f[i] == file[i]
  {
    if slot == |file| then file + [record] else file[slot := record]
  }

  /** The contents of a file that may not exist. */
  function Open<T>(files: map<string, seq<T>>, name: string): seq<T> {
    if name in files then files[name] else []
  }

  /** create_file. */
  function Touch<T>(files: map<string, seq<T>>, name: string): map<string, seq<T>> {
    if name in files then files else files[name := []]
  }

  function Digit(d: nat): char
    requires d < 10
  {
    '0' + d as char
  }

  /** atoi on a number without sign or leading blanks: the digits up to the first other character. */
  function Atoi(s: string): (n: nat) {
    AtoiFrom(s, 0)
  }

  function AtoiFrom(s: string, n: nat): nat {
    if s == [] || !('0' <= s[0] <= '9') then n else AtoiFrom(s[1..], 10 * n + (s[0] - '0') as nat)
  }

  ghost predicate Digits(s: string) {
    forall i :: 0 <= i < |s| ==> '0' <= s[i] <= '9'
  }

  function Decimal(n: nat): (s: string)
    ensures s != "" && Digits(s)
  {
    if n < 10 then [Digit(n)] else Decimal(n / 10) + [Digit(n % 10)]
  }

  function Padded(s: string): (p: string)
    requires Digits(s)
    ensures |p| == (if |s| < 8 then 8 else |s|) && Digits(p)
    decreases 8 - |s|
  {
    if |s| < 8 then Padded("0" + s) else s
  }

  /** sprintf "%08d". */
  function Print8(n: nat): (s: string)
    ensures |s| >= 8
  {
    Padded(Decimal(n))
  }

  lemma {:induction false} AtoiOfDigits(s: string, d: char, n: nat)
    requires Digits(s) && '0' <= d <= '9'
    ensures AtoiFrom(s + [d], n) == 10 * AtoiFrom(s, n) + (d - '0') as nat
  {
    if s == [] {
      assert s + [d] == [d] && [d][1..] == "";
    } else {
      assert (s + [d])[1..] == s[1..] + [d] && (s + [d])[0] == s[0];
      AtoiOfDigits(s[1..], d, 10 * n + (s[0] - '0') as nat);
    }
  }

  lemma {:induction false} AtoiOfDecimal(n: nat)
    ensures Atoi(Decimal(n)) == n
  {
    if n < 10 {
      AtoiOfDigits("", Digit(n), 0);
      assert "" + [Digit(n)] == Decimal(n);
    } else {
      AtoiOfDecimal(n / 10);
      AtoiOfDigits(Decimal(n / 10), Digit(n % 10), 0);
    }
  }

  lemma {:induction false} AtoiOfPadded(s: string)
    requires Digits(s)
    ensures Atoi(Padded(s)) == Atoi(s)
    decreases 8 - |s|
  {
    if |s| < 8 {
      AtoiOfPadded("0" + s);
      assert ("0" + s)[1..] == s;
    }
  }

  lemma {:induction false} DecimalSize(n: nat, k: nat)
    requires k > 0
    ensures |Decimal(n)| <= k <==> n < Power10(k)
    decreases k
  {
    if n >= 10 && k > 1 {
      DecimalSize(n / 10, k - 1);
    }
  }

  function Power10(k: nat): (p: nat)
    ensures p > 0
  {
    if k == 0 then 1 else 10 * Power10(k - 1)
  }

  /** Parsing a printed slot number gives the slot back, so different slots have different file names. */
  lemma FileNumber(n: nat)
    ensures Atoi(Print8(n)) == n
  {
    AtoiOfDecimal(n);
    AtoiOfPadded(Decimal(n));
  }

  /** Padding puts zeros before the digits. */
  lemma {:induction false} ZerosBefore(s: string)
    requires Digits(s)
    ensures var z := if |s| < 8 then 8 - |s| else 0;
            Padded(s)[z..] == s && forall i :: 0 <= i < z ==> Padded(s)[i] == '0'
    decreases 8 - |s|
  {
    if |s| < 8 {
      ZerosBefore("0" + s);
      var p := Padded("0" + s);
      assert p == Padded(s) && p[7 - |s|..][1..] == p[8 - |s|..];
      assert p[7 - |s|..][0] == '0';
    }
  }

  lemma PrintedExample()
    ensures Print8(65535) == "00065535" && Atoi("00065535") == 65535
  {
    assert Decimal(6) == "6" && Decimal(65) == "65" && Decimal(655) == "655" && Decimal(6553) == "6553";
    assert Decimal(65535) == "65535";
    ZerosBefore("65535");
    FileNumber(65535);
  }

  /** A printed number fits its field of nine characters with the terminator exactly when it has eight digits. */
  lemma FileNumberFits(n: nat)
    ensures |Print8(n)| < 9 <==> n < 100_000_000
  {
    assert Power10(4) == 10_000;
    assert Power10(8) == 100_000_000;
    DecimalSize(n, 8);
  }
}
