/** The publishes queued for a client (LinuxPersistent.cpp). */
module PublishQueue {
  import opened Basics
  import opened SlotFile

  /** What a queued publish is about. */
  datatype Payload = Payload(msg: seq<byte>, topicId: uint16, qos: byte, retain: bool)

  datatype Publish = Publish(payload: Payload, dup: bool, msgId: uint16, publishId: uint16)

  const HOLE := Publish(Payload([], 0, 0, false), false, 0, 0)

  /** Slot i is empty or holds publish id i + 1. */
  predicate Inv(file: seq<Publish>) {
    && |file| <= 0xFFFF
    && forall i :: 0 <= i < |file| ==> file[i].publishId == 0 || file[i].publishId == i + 1
  }

  /** The payloads in the queue. */
  ghost function Live(file: seq<Publish>): multiset<Payload> {
    if file == [] then multiset{}
    else Live(file[..|file| - 1]) + Of(file[|file| - 1])
  }

  ghost function Of(p: Publish): multiset<Payload> {
    if p.publishId == 0 then multiset{} else multiset{p.payload}
  }

  // Sums of multisets

  lemma Exchange<T>(before: multiset<T>, after: multiset<T>, taken: multiset<T>, put: multiset<T>, rest: multiset<T>)
    requires after + taken == before + put
    ensures (after + rest) + taken == (before + rest) + put
  {
    assert (after + rest) + taken == (after + taken) + rest;
    assert (before + rest) + put == (before + put) + rest;
  }

  lemma Cancel<T>(a: multiset<T>, b: multiset<T>, c: multiset<T>)
    requires a + c == b + c
    ensures a == b
  {
    assert a == (a + c) - c && b == (b + c) - c;
  }

  lemma Ledger<T>(before: multiset<T>, mid: multiset<T>, after: multiset<T>, put: multiset<T>, taken: multiset<T>,
                  puts: multiset<T>, takens: multiset<T>)
    requires mid + taken == before + put && after + takens == mid + puts
    ensures after + (taken + takens) == before + (put + puts)
  {
    assert after + (taken + takens) == (after + takens) + taken;
    assert (mid + puts) + taken == (mid + taken) + puts;
    assert before + (put + puts) == (before + put) + puts;
  }

  lemma LiveLast(file: seq<Publish>, n: nat, last: Publish)
    requires |file| == n + 1 && file[n] == last
    ensures Live(file) == Live(file[..n]) + Of(last)
  {
  }

  lemma {:induction false} LiveOfPut(file: seq<Publish>, slot: nat, record: Publish)
    requires slot <= |file|
    ensures slot == |file| ==> Live(Put(file, slot, record)) == Live(file) + Of(record)
    ensures slot < |file| ==> Live(Put(file, slot, record)) + Of(file[slot]) == Live(file) + Of(record)
    decreases |file|
  {
    hide Live, Of;
    var f := Put(file, slot, record);
    if slot == |file| {
      LiveLast(f, |file|, record);
      assert f[..|file|] == file;
    } else {
      var n := |file| - 1;
      LiveLast(file, n, file[n]);
      LiveLast(f, n, f[n]);
      if slot == n {
        assert f[..n] == file[..n];
        assert Live(file[..n]) + Of(record) + Of(file[n]) == Live(file[..n]) + Of(file[n]) + Of(record);
      } else {
        LiveOfPut(file[..n], slot, record);
        assert f[..n] == Put(file[..n], slot, record);
        Exchange(Live(file[..n]), Live(f[..n]), Of(file[slot]), Of(record), Of(file[n]));
      }
    }
  }

  lemma {:induction false} LiveHas(file: seq<Publish>, i: nat)
    requires i < |file| && file[i].publishId != 0
    ensures file[i].payload in Live(file)
    decreases |file|
  {
    if i < |file| - 1 {
      LiveHas(file[..|file| - 1], i);
    }
  }

  lemma {:induction false} LiveNone(file: seq<Publish>)
    requires forall p <- file :: p.publishId == 0
    ensures Live(file) == multiset{}
    decreases |file|
  {
    if file != [] {
      LiveNone(file[..|file| - 1]);
    }
  }

  // Adding

  /** The last empty slot, or the end of the file. */
  function Space(file: seq<Publish>, n: nat): (i: nat)
    requires n <= |file|
    ensures i <= |file|
    ensures i < |file| ==> i < n && file[i].publishId == 0
    ensures forall j :: 0 <= j < n && file[j].publishId == 0 ==> j <= i < |file|
  {
    if n == 0 then |file| else if file[n - 1].publishId == 0 then n - 1 else Space(file, n - 1)
  }

  /** There is a 16-bit publish id left. */
  predicate Fits(file: seq<Publish>) {
    Space(file, |file|) < 0xFFFF
  }

  function Add(file: seq<Publish>, payload: Payload): seq<Publish>
    requires Fits(file)
  {
    var slot := Space(file, |file|);
    Put(file, slot, Publish(payload, false, 0, slot + 1))
  }

  /** add_client_publish behind its checks; the caller's dup flag and message id are not stored. */
  method AddPublish(file: seq<Publish>, payload: Payload, dup: bool, msgId: uint16) returns (newFile: seq<Publish>)
    requires |file| <= 0xFFFF && Fits(file)
    ensures newFile == Add(file, payload)
  {
    var entryNumber, firstEmpty := 0, -1;
    while entryNumber < |file|
      invariant entryNumber <= |file|
      invariant firstEmpty == if Space(file, entryNumber) < |file| then Space(file, entryNumber) else -1
    {
      if file[entryNumber].publishId == 0 {
        firstEmpty := entryNumber;
      }
      entryNumber := entryNumber + 1;
    }
    entryNumber := (entryNumber + 1) % 0x1_0000;
    if firstEmpty == -1 {
      firstEmpty := entryNumber - 1;
    }
    return Put(file, firstEmpty, Publish(payload, false, 0, firstEmpty + 1));
  }

  lemma AddConserves(file: seq<Publish>, payload: Payload)
    requires Inv(file) && Fits(file)
    ensures Inv(Add(file, payload))
    ensures Live(Add(file, payload)) == Live(file) + multiset{payload}
  {
    hide Live;
    var slot := Space(file, |file|);
    LiveOfPut(file, slot, Publish(payload, false, 0, slot + 1));
  }

  // Reading

  /** The last live slot, or the end of the file. */
  function LastLive(file: seq<Publish>, n: nat): (i: nat)
    requires n <= |file|
    ensures i <= |file|
    ensures i < |file| ==> i < n && file[i].publishId != 0
    ensures forall j :: 0 <= j < n && file[j].publishId != 0 ==> j <= i < |file|
  {
    if n == 0 then |file| else if file[n - 1].publishId != 0 then n - 1 else LastLive(file, n - 1)
  }

  /** get_next_publish behind its checks: the publish in the last live slot; publish id 0 stands for none. */
  method NextPublish(file: seq<Publish>) returns (next: Publish)
    requires Inv(file)
    ensures next == if LastLive(file, |file|) < |file| then file[LastLive(file, |file|)] else HOLE
    ensures next.publishId == 0 <==> Live(file) == multiset{}
    ensures next.publishId != 0 ==> next.publishId <= |file| && file[next.publishId - 1] == next
    ensures forall p <- file :: p.publishId <= next.publishId
  {
    var last := -1;
    for entryNumber := 0 to |file|
      invariant last == if LastLive(file, entryNumber) < |file| then LastLive(file, entryNumber) else -1
    {
      if file[entryNumber].publishId != 0 {
        last := entryNumber;
      }
    }
    if last == -1 {
      LiveNone(file);
      return HOLE;
    }
    LiveHas(file, last);
    return file[last];
  }

  /** has_client_publishes behind its checks. */
  method HasPublishes(file: seq<Publish>) returns (has: bool)
    ensures has <==> Live(file) != multiset{}
  {
    for i := 0 to |file|
      invariant forall j :: 0 <= j < i ==> file[j].publishId == 0
    {
      if file[i].publishId != 0 {
        LiveHas(file, i);
        return true;
      }
    }
    LiveNone(file);
    return false;
  }

  // Changing and removing by publish id

  /** The direct seek to slot publishId - 1: nothing to read, another id there, or the publish. */
  datatype Seek = EndOfFile | Mismatch | Hit(slot: nat)

  function SeekTo(file: seq<Publish>, publishId: uint16): (s: Seek)
    requires publishId != 0
    ensures s.Hit? ==> s.slot < |file| && file[s.slot].publishId == publishId
  {
    if publishId > |file| then EndOfFile
    else if file[publishId - 1].publishId != publishId then Mismatch
    else Hit(publishId - 1)
  }

  /** The seek finds exactly what a scan for the publish id would find. */
  lemma SeekAgreesWithScan(file: seq<Publish>, publishId: uint16)
    requires Inv(file) && publishId != 0
    ensures SeekTo(file, publishId).Hit? <==> exists p <- file :: p.publishId == publishId
    ensures forall i :: 0 <= i < |file| && file[i].publishId == publishId ==> SeekTo(file, publishId) == Hit(i)
  {
    if p :| p in file && p.publishId == publishId {
      var i :| 0 <= i < |file| && file[i] == p;
      assert i == publishId - 1;
    }
  }

  function Remove(file: seq<Publish>, publishId: uint16): seq<Publish>
    requires publishId != 0
  {
    var s := SeekTo(file, publishId);
    if s.Hit? then file[s.slot := HOLE] else file
  }

  function SetMsgId(file: seq<Publish>, publishId: uint16, msgId: uint16): seq<Publish>
    requires publishId != 0
  {
    var s := SeekTo(file, publishId);
    if s.Hit? then file[s.slot := file[s.slot].(msgId := msgId)] else file
  }

  /** remove_publish_by_publish_id behind its checks. */
  method RemovePublish(file: seq<Publish>, publishId: uint16) returns (newFile: seq<Publish>, error: bool)
    requires publishId != 0
    ensures newFile == Remove(file, publishId) && (error <==> SeekTo(file, publishId).Mismatch?)
  {
    newFile, error := file, false;
    if publishId - 1 < |file| {
      if file[publishId - 1].publishId == publishId {
        newFile := file[publishId - 1 := HOLE];
      } else {
        error := true;
      }
    }
  }

  /** set_publish_msg_id behind its checks. */
  method SetPublishMsgId(file: seq<Publish>, publishId: uint16, msgId: uint16)
    returns (newFile: seq<Publish>, error: bool)
    requires publishId != 0
    ensures newFile == SetMsgId(file, publishId, msgId) && (error <==> SeekTo(file, publishId).Mismatch?)
  {
    newFile, error := file, false;
    if publishId - 1 < |file| {
      var p := file[publishId - 1];
      if p.publishId == publishId {
        newFile := file[publishId - 1 := p.(msgId := msgId)];
      } else {
        error := true;
      }
    }
  }

  lemma RemoveConserves(file: seq<Publish>, publishId: uint16)
    requires Inv(file) && publishId != 0
    ensures Inv(Remove(file, publishId)) && |Remove(file, publishId)| == |file|
    ensures var s := SeekTo(file, publishId);
            Live(Remove(file, publishId)) + (if s.Hit? then multiset{file[s.slot].payload} else multiset{})
            == Live(file)
    ensures !SeekTo(Remove(file, publishId), publishId).Hit?
  {
    var s := SeekTo(file, publishId);
    if s.Hit? {
      LiveOfPut(file, s.slot, HOLE);
    }
  }

  lemma SetMsgIdConserves(file: seq<Publish>, publishId: uint16, msgId: uint16)
    requires Inv(file) && publishId != 0
    ensures var f := SetMsgId(file, publishId, msgId);
            && Inv(f) && |f| == |file| && Live(f) == Live(file)
            && (forall i :: 0 <= i < |file| ==> f[i] == if i == publishId - 1 && file[i].publishId == publishId
                                                        then file[i].(msgId := msgId) else file[i])
  {
    hide Live;
    var s := SeekTo(file, publishId);
    if s.Hit? {
      LiveOfPut(file, s.slot, file[s.slot].(msgId := msgId));
      Cancel(Live(SetMsgId(file, publishId, msgId)), Live(file), Of(file[s.slot]));
    }
  }

  // Runs

  datatype Op = Enqueue(payload: Payload) | Dequeue(publishId: uint16) | SetId(publishId: uint16, msgId: uint16)

  predicate AllFit(file: seq<Publish>, ops: seq<Op>)
    decreases |ops|
  {
    ops == [] || (StepFits(file, ops[0]) && AllFit(Step(file, ops[0]), ops[1..]))
  }

  predicate StepFits(file: seq<Publish>, op: Op) {
    if op.Enqueue? then Fits(file) else op.publishId != 0
  }

  function Step(file: seq<Publish>, op: Op): seq<Publish>
    requires StepFits(file, op)
  {
    match op
    case Enqueue(payload) => Add(file, payload)
    case Dequeue(publishId) => Remove(file, publishId)
    case SetId(publishId, msgId) => SetMsgId(file, publishId, msgId)
  }

  function Run(file: seq<Publish>, ops: seq<Op>): seq<Publish>
    requires AllFit(file, ops)
    decreases |ops|
  {
    if ops == [] then file else Run(Step(file, ops[0]), ops[1..])
  }

  ghost function Enqueued(op: Op): multiset<Payload> {
    if op.Enqueue? then multiset{op.payload} else multiset{}
  }

  ghost function Dequeued(file: seq<Publish>, op: Op): multiset<Payload>
    requires StepFits(file, op)
  {
    if op.Dequeue? && SeekTo(file, op.publishId).Hit?
    then multiset{file[SeekTo(file, op.publishId).slot].payload} else multiset{}
  }

  ghost function Added(ops: seq<Op>): multiset<Payload> {
    if ops == [] then multiset{} else Enqueued(ops[0]) + Added(ops[1..])
  }

  /** What the removals of a run took out. */
  ghost function Removed(file: seq<Publish>, ops: seq<Op>): multiset<Payload>
    requires AllFit(file, ops)
    decreases |ops|
  {
    if ops == [] then multiset{} else Dequeued(file, ops[0]) + Removed(Step(file, ops[0]), ops[1..])
  }

  /** Over any run, what is in the queue and what was removed make up what was there and what was added. */
  lemma {:induction false} Conservation(file: seq<Publish>, ops: seq<Op>)
    requires Inv(file) && AllFit(file, ops)
    ensures Inv(Run(file, ops))
    ensures Live(Run(file, ops)) + Removed(file, ops) == Live(file) + Added(ops)
    decreases |ops|
  {
    hide Inv, Live, Step, StepFits;
    if ops != [] {
      var f := Step(file, ops[0]);
      StepConserves(file, ops[0]);
      Conservation(f, ops[1..]);
      Ledger(Live(file), Live(f), Live(Run(f, ops[1..])), Enqueued(ops[0]), Dequeued(file, ops[0]), Added(ops[1..]),
             Removed(f, ops[1..]));
    } else {
      assert Live(file) + multiset{} == Live(file);
    }
  }

  lemma StepConserves(file: seq<Publish>, op: Op)
    requires Inv(file) && StepFits(file, op)
    ensures Inv(Step(file, op))
    ensures Live(Step(file, op)) + Dequeued(file, op) == Live(file) + Enqueued(op)
  {
    hide Inv, Live, Add, Remove, SetMsgId, Fits;
    match op
    case Enqueue(payload) =>
      AddConserves(file, payload);
    case Dequeue(publishId) =>
      RemoveConserves(file, publishId);
    case SetId(publishId, msgId) =>
      SetMsgIdConserves(file, publishId, msgId);
  }

  /** Taking the next publish and removing it, until there is none, ends and yields every stored publish exactly
      once. */
  method Drain(file: seq<Publish>) returns (newFile: seq<Publish>, out: seq<Payload>)
    requires Inv(file)
    ensures multiset(out) == Live(file) && Live(newFile) == multiset{}
  {
    hide Inv, Live, Remove;
    newFile, out := file, [];
    var next := NextPublish(newFile);
    while next.publishId != 0
      invariant Inv(newFile) && multiset(out) + Live(newFile) == Live(file)
      invariant next.publishId == 0 <==> Live(newFile) == multiset{}
      invariant next.publishId != 0 ==> next.publishId <= |newFile| && newFile[next.publishId - 1] == next
      decreases Live(newFile)
    {
      var error: bool;
      ghost var before := newFile;
      RemoveConserves(newFile, next.publishId);
      newFile, error := RemovePublish(newFile, next.publishId);
      out := out + [next.payload];
      assert Live(before) == Live(newFile) + multiset{next.payload};
      next := NextPublish(newFile);
    }
  }
}
