/** The file that counts, over all clients, the subscriptions to each topic (LinuxPersistent.cpp). */
module GlobalSubscriptions {
  import opened Basics
  import opened SlotFile

  datatype TopicCount = TopicCount(count: uint32, name: string) {
    predicate Hole() {
      count == 0 && name == ""
    }

    predicate Matches(topic: string) {
      count != 0 && |name| < MAXIMUM_TOPIC_NAME_LENGTH && name == topic
    }
  }

  const HOLE := TopicCount(0, "")

  /** A topic name the counting functions accept. */
  predicate Countable(name: string) {
    0 < |name| < MAXIMUM_TOPIC_NAME_LENGTH
  }

  function Find(file: seq<TopicCount>, name: string): (i: nat)
    ensures i <= |file|
    ensures i < |file| ==> file[i].Matches(name)
    ensures forall j :: 0 <= j < i ==> !file[j].Matches(name)
  {
    if file == [] || file[0].Matches(name) then 0
    else
      var i := 1 + Find(file[1..], name);
      assert forall j :: 0 < j < i ==> file[j] == file[1..][j - 1];
      i
  }

  /** The last hole, or the end of the file. */
  function Space(file: seq<TopicCount>): (i: nat)
    ensures i <= |file|
    ensures i < |file| ==> file[i].Hole()
    ensures forall j :: 0 <= j < |file| && file[j].Hole() ==> j <= i < |file|
  {
    LastHole(file, |file|)
  }

  function LastHole(file: seq<TopicCount>, n: nat): (i: nat)
    requires n <= |file|
    ensures i <= |file|
    ensures i < |file| ==> i < n && file[i].Hole()
    ensures forall j :: 0 <= j < n && file[j].Hole() ==> j <= i < |file|
  {
    if n == 0 then |file| else if file[n - 1].Hole() then n - 1 else LastHole(file, n - 1)
  }

  /** Every slot is empty or counts an acceptable topic, and no topic has two live slots. */
  ghost predicate Inv(file: seq<TopicCount>) {
    && |file| <= 0xFFFF
    && (forall i :: 0 <= i < |file| ==> file[i] == HOLE || (file[i].count != 0 && Countable(file[i].name)))
    && (forall i, j :: 0 <= i < j < |file| && file[i] != HOLE && file[j] != HOLE ==> file[i].name != file[j].name)
  }

  /** get_global_topic_subscription_count. */
  function Count(file: seq<TopicCount>, name: string): uint32 {
    var k := Find(file, name);
    if Countable(name) && k < |file| then file[k].count else 0
  }

  /** An increment does not need a slot past the 16-bit slot numbers. */
  predicate Fits(file: seq<TopicCount>, name: string) {
    Countable(name) && Find(file, name) == |file| ==> Space(file) < 0xFFFF
  }

  function Increment(file: seq<TopicCount>, name: string): seq<TopicCount>
    requires Fits(file, name)
  {
    var k := Find(file, name);
    if !Countable(name) then file
    else if k < |file| then file[k := TopicCount((file[k].count + 1) % 0x1_0000_0000, name)]
    else Put(file, Space(file), TopicCount(1, name))
  }

  function Decrement(file: seq<TopicCount>, name: string): seq<TopicCount> {
    var k := Find(file, name);
    if !Countable(name) || k == |file| then file
    else file[k := if file[k].count == 1 then HOLE else TopicCount(file[k].count - 1, name)]
  }

  /** increment_global_subscription_count while no error is pending. */
  method IncrementCount(file: seq<TopicCount>, name: string) returns (newFile: seq<TopicCount>, ok: bool)
    requires |file| <= 0xFFFF && Fits(file, name)
    ensures newFile == Increment(file, name) && (ok <==> Countable(name))
  {
    if |name| == 0 || |name| >= MAXIMUM_TOPIC_NAME_LENGTH {
      return file, false;
    }
    var entryNumber, firstEmpty := 0, -1;
    while entryNumber < |file|
      invariant entryNumber <= Find(file, name)
      invariant firstEmpty == if LastHole(file, entryNumber) < |file| then LastHole(file, entryNumber) else -1
    {
      var entry := file[entryNumber];
      if entry.count == 0 && |entry.name| == 0 {
        firstEmpty := entryNumber;
      } else if entry.count != 0 && |entry.name| < MAXIMUM_TOPIC_NAME_LENGTH && entry.name == name {
        entry := entry.(count := (entry.count + 1) % 0x1_0000_0000);
        return file[entryNumber := entry], true;
      }
      entryNumber := entryNumber + 1;
    }
    entryNumber := (entryNumber + 1) % 0x1_0000;
    if firstEmpty == -1 {
      firstEmpty := entryNumber - 1;
    }
    return Put(file, firstEmpty, TopicCount(1, name)), true;
  }

  /** decrement_global_subscription_count while no error is pending. */
  method DecrementCount(file: seq<TopicCount>, name: string) returns (newFile: seq<TopicCount>, ok: bool)
    ensures newFile == Decrement(file, name) && (ok <==> Countable(name))
  {
    if |name| == 0 || |name| >= MAXIMUM_TOPIC_NAME_LENGTH {
      return file, false;
    }
    for entryNumber := 0 to |file|
      invariant entryNumber <= Find(file, name)
    {
      var entry := file[entryNumber];
      if entry.count != 0 && |entry.name| < MAXIMUM_TOPIC_NAME_LENGTH && entry.name == name {
        entry := entry.(count := entry.count - 1);
        if entry.count == 0 {
          entry := HOLE;
        }
        return file[entryNumber := entry], true;
      }
    }
    return file, true;
  }

  /** get_global_topic_subscription_count while no error is pending. */
  method QueryCount(file: seq<TopicCount>, name: string) returns (count: uint32)
    ensures count == Count(file, name)
  {
    if |name| == 0 || |name| >= MAXIMUM_TOPIC_NAME_LENGTH {
      return 0;
    }
    for i := 0 to |file|
      invariant i <= Find(file, name)
    {
      if file[i].count != 0 && |file[i].name| < MAXIMUM_TOPIC_NAME_LENGTH && file[i].name == name {
        return file[i].count;
      }
    }
    return 0;
  }

  // Counts

  lemma CountOfLive(file: seq<TopicCount>, i: nat)
    requires Inv(file) && i < |file| && file[i] != HOLE
    ensures Find(file, file[i].name) == i && Count(file, file[i].name) == file[i].count
  {
    assert file[i].Matches(file[i].name);
    var k := Find(file, file[i].name);
    assert file[k].Matches(file[i].name);
  }

  /** A count is found from the slot that holds it. */
  lemma CountIs(file: seq<TopicCount>, name: string, n: nat)
    requires Inv(file)
    requires n == 0 ==> forall i :: 0 <= i < |file| ==> file[i] == HOLE || file[i].name != name
    requires n > 0 ==> exists i :: 0 <= i < |file| && file[i].count == n && file[i].name == name
    ensures Count(file, name) == n
  {
    if n > 0 {
      var i :| 0 <= i < |file| && file[i].count == n && file[i].name == name;
      CountOfLive(file, i);
    }
  }

  /** An increment counts one more for its topic and leaves the file in order exactly when the count has not reached
      its 32-bit limit; at the limit it wraps, and the slot with a name and no count is neither live nor a hole. */
  lemma IncrementExactly(file: seq<TopicCount>, name: string)
    requires Inv(file) && Fits(file, name)
    ensures var f := Increment(file, name);
            && (Inv(f) && Count(f, name) == Count(file, name) + (if Countable(name) then 1 else 0)
                <==> Count(file, name) < 0xFFFF_FFFF)
            && (Count(file, name) == 0xFFFF_FFFF ==> DeadSlot(f) && Count(f, name) == 0)
  {
    hide Inv, Fits, Find, Increment, DeadSlot;
    CountsAfterIncrement(file, name, name);
    CountedIsCountable(file, name);
  }

  lemma CountedIsCountable(file: seq<TopicCount>, name: string)
    ensures Count(file, name) > 0 ==> Countable(name)
  {
  }

  /** A slot with a name and no count. */
  ghost predicate DeadSlot(file: seq<TopicCount>) {
    exists i :: 0 <= i < |file| && file[i].count == 0 && file[i].name != ""
  }

  /** What one increment and one decrement do to every topic's count. */
  lemma CountsAfterIncrement(file: seq<TopicCount>, name: string, other: string)
    requires Inv(file) && Fits(file, name)
    ensures Inv(Increment(file, name)) <==> Count(file, name) < 0xFFFF_FFFF
    ensures Count(Increment(file, name), other) == if other == name && Countable(name)
                                                   then (Count(file, other) + 1) % 0x1_0000_0000
                                                   else Count(file, other)
    ensures Count(file, name) == 0xFFFF_FFFF ==> DeadSlot(Increment(file, name))
    ensures |Increment(file, name)| > |file| <==>
            Countable(name) && Count(file, name) == 0 && forall i :: 0 <= i < |file| ==> file[i] != HOLE
  {
    var k, f := Find(file, name), Increment(file, name);
    var slot := if k < |file| then k else Space(file);
    if Count(file, name) == 0xFFFF_FFFF {
      WrappedCount(file, k);
      if other != name {
        OtherFound(file, f, k, other);
      }
    } else if Countable(name) {
      IncrementKeepsInv(file, name);
      CountOfLive(f, slot);
      if other != name {
        OtherCount(file, f, slot, other);
      }
    }
  }

  /** A slot that loses its count is out of order, and its topic is not found any more. */
  lemma WrappedCount(file: seq<TopicCount>, k: nat)
    requires Inv(file) && k < |file| && file[k] != HOLE
    ensures var f := file[k := TopicCount(0, file[k].name)];
            !Inv(f) && DeadSlot(f) && Count(f, file[k].name) == 0
  {
    var f := file[k := TopicCount(0, file[k].name)];
    assert f[k] == TopicCount(0, file[k].name) && f[k] != HOLE;
    forall i | 0 <= i < |f|
      ensures !f[i].Matches(file[k].name)
    {
    }
  }

  lemma OtherFound(file: seq<TopicCount>, f: seq<TopicCount>, k: nat, other: string)
    requires k < |file| == |f| && f == file[k := f[k]] && file[k].name != other && f[k].name != other
    ensures Count(f, other) == Count(file, other)
  {
    var i, j := Find(file, other), Find(f, other);
    assert i < |file| ==> f[i] == file[i];
    assert j < |f| ==> file[j] == f[j];
  }

  lemma IncrementKeepsInv(file: seq<TopicCount>, name: string)
    requires Inv(file) && Fits(file, name) && Count(file, name) < 0xFFFF_FFFF
    ensures Inv(Increment(file, name))
  {
    var k := Find(file, name);
    forall i | 0 <= i < |file| && file[i] != HOLE
      ensures file[i].Matches(file[i].name)
    {
    }
  }

  lemma CountsAfterDecrement(file: seq<TopicCount>, name: string, other: string)
    requires Inv(file)
    ensures Inv(Decrement(file, name)) && |Decrement(file, name)| == |file|
    ensures Count(Decrement(file, name), other)
         == if other == name && Count(file, name) > 0 then Count(file, name) - 1 else Count(file, other)
  {
    var k, f := Find(file, name), Decrement(file, name);
    if Countable(name) && k < |file| {
      assert Inv(f);
      if f[k] == HOLE {
        CountIs(f, name, 0);
      } else {
        CountOfLive(f, k);
      }
      if other != name {
        OtherCount(file, f, k, other);
      }
    }
  }

  /** A topic's count does not depend on slots of other topics. */
  lemma OtherCount(file: seq<TopicCount>, f: seq<TopicCount>, slot: nat, other: string)
    requires Inv(file) && Inv(f) && slot < |f| && |file| <= |f| <= |file| + 1 && (|f| > |file| ==> slot == |file|)
    requires forall i :: 0 <= i < |file| && i != slot ==> f[i] == file[i]
    requires Countable(other) ==> f[slot].name != other && (slot < |file| ==> file[slot].name != other)
    ensures Count(f, other) == Count(file, other)
  {
    var k := Find(file, other);
    if Countable(other) && k < |file| {
      assert f[k] == file[k];
      CountOfLive(f, k);
    } else if Countable(other) {
      forall i | 0 <= i < |f|
        ensures f[i] == HOLE || f[i].name != other
      {
        if i != slot && f[i] != HOLE {
          assert !file[i].Matches(other);
        }
      }
      CountIs(f, other, 0);
    }
  }

  // Histories

  datatype Op = Inc(name: string) | Dec(name: string)

  predicate StepFits(file: seq<TopicCount>, op: Op) {
    op.Inc? ==> Fits(file, op.name)
  }

  predicate AllFit(file: seq<TopicCount>, ops: seq<Op>)
    decreases |ops|
  {
    ops == [] || (StepFits(file, ops[0]) && AllFit(Step(file, ops[0]), ops[1..]))
  }

  function Step(file: seq<TopicCount>, op: Op): seq<TopicCount>
    requires StepFits(file, op)
  {
    match op
    case Inc(name) => Increment(file, name)
    case Dec(name) => Decrement(file, name)
  }

  function Run(file: seq<TopicCount>, ops: seq<Op>): seq<TopicCount>
    requires AllFit(file, ops)
    decreases |ops|
  {
    if ops == [] then file else Run(Step(file, ops[0]), ops[1..])
  }

  /** No increment of the history meets a count at its limit. */
  predicate NoneWraps(file: seq<TopicCount>, ops: seq<Op>)
    requires AllFit(file, ops)
    decreases |ops|
  {
    ops == [] || ((ops[0].Inc? ==> Count(file, ops[0].name) < 0xFFFF_FFFF) && NoneWraps(Step(file, ops[0]), ops[1..]))
  }

  /** What a counter of one topic alone would show: plus one, and minus one down to zero. */
  function Fold(ops: seq<Op>, name: string, n: nat): nat
    decreases |ops|
  {
    if ops == [] then n
    else if ops[0].name != name then Fold(ops[1..], name, n)
    else Fold(ops[1..], name, if ops[0].Inc? then n + 1 else if n > 0 then n - 1 else 0)
  }

  /** After any history in which no count wraps the count of a topic is the fold of the operations on that topic, and
      each topic has at most one live slot; after any other history the file is out of order for good. */
  lemma {:induction false} CountIsFold(file: seq<TopicCount>, ops: seq<Op>, name: string)
    requires Inv(file) && Countable(name) && AllFit(file, ops)
    ensures Inv(Run(file, ops)) <==> NoneWraps(file, ops)
    ensures NoneWraps(file, ops) ==> Count(Run(file, ops), name) == Fold(ops, name, Count(file, name))
    decreases |ops|
  {
    hide Inv, Count, Increment, Decrement, Fits, DeadSlot;
    if ops != [] {
      var f := Step(file, ops[0]);
      if ops[0].Inc? && Count(file, ops[0].name) == 0xFFFF_FFFF {
        IncrementExactly(file, ops[0].name);
        DeadForGood(f, ops[1..]);
        DeadIsOutOfOrder(Run(f, ops[1..]));
      } else {
        StepCounts(file, ops[0], name);
        CountIsFold(f, ops[1..], name);
      }
    }
  }

  lemma StepCounts(file: seq<TopicCount>, op: Op, name: string)
    requires Inv(file) && Countable(name) && StepFits(file, op)
    requires op.Inc? ==> Count(file, op.name) < 0xFFFF_FFFF
    ensures Inv(Step(file, op))
    ensures Count(Step(file, op), name) == Fold([op], name, Count(file, name))
  {
    hide Inv, Count, Increment, Decrement;
    match op
    case Inc(topic) =>
      CountsAfterIncrement(file, topic, name);
    case Dec(topic) =>
      CountsAfterDecrement(file, topic, name);
  }

  lemma DeadIsOutOfOrder(file: seq<TopicCount>)
    requires DeadSlot(file)
    ensures !Inv(file)
  {
  }

  /** Nothing ever uses a dead slot again. */
  lemma {:induction false} DeadForGood(file: seq<TopicCount>, ops: seq<Op>)
    requires DeadSlot(file) && AllFit(file, ops)
    ensures DeadSlot(Run(file, ops))
    decreases |ops|
  {
    hide DeadSlot, Increment, Decrement;
    if ops != [] {
      DeadStays(file, ops[0]);
      DeadForGood(Step(file, ops[0]), ops[1..]);
    }
  }

  lemma DeadStays(file: seq<TopicCount>, op: Op)
    requires DeadSlot(file) && StepFits(file, op)
    ensures DeadSlot(Step(file, op))
  {
    var i :| 0 <= i < |file| && file[i].count == 0 && file[i].name != "";
    assert Step(file, op)[i] == file[i];
  }
}
