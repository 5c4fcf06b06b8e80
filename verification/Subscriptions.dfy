/** A client's subscriptions (LinuxPersistent.cpp). */
module Subscriptions {
  import opened Basics
  import opened SlotFile

  datatype Subscription = Subscription(topicId: uint16, qos: byte, name: string) {
    predicate Matches(topic: string, id: uint16) {
      topicId == id && |name| < MAXIMUM_TOPIC_NAME_LENGTH && name == topic
    }
  }

  const HOLE := Subscription(0, 0, "")

  predicate Acceptable(name: string, id: uint16) {
    0 < |name| < MAXIMUM_TOPIC_NAME_LENGTH && id != 0
  }

  /** Every slot is empty or holds an acceptable subscription, and none is there twice. */
  ghost predicate Inv(file: seq<Subscription>) {
    && |file| <= 0xFFFF
    && (forall i :: 0 <= i < |file| ==> file[i] == HOLE || Acceptable(file[i].name, file[i].topicId))
    && (forall i, j :: 0 <= i < j < |file| && file[i] != HOLE ==> !file[j].Matches(file[i].name, file[i].topicId))
  }

  function Find(file: seq<Subscription>, name: string, id: uint16): (i: nat)
    ensures i <= |file|
    ensures i < |file| ==> file[i].Matches(name, id)
    ensures forall j :: 0 <= j < i ==> !file[j].Matches(name, id)
  {
    if file == [] || file[0].Matches(name, id) then 0
    else
      var i := 1 + Find(file[1..], name, id);
      assert forall j :: 0 < j < i ==> file[j] == file[1..][j - 1];
      i
  }

  function FindId(file: seq<Subscription>, id: uint16): (i: nat)
    ensures i <= |file|
    ensures i < |file| ==> file[i].topicId == id
    ensures forall j :: 0 <= j < i ==> file[j].topicId != id
  {
    if file == [] || file[0].topicId == id then 0
    else
      var i := 1 + FindId(file[1..], id);
      assert forall j :: 0 < j < i ==> file[j] == file[1..][j - 1];
      i
  }

  /** The last empty slot, or the end of the file. */
  function Space(file: seq<Subscription>, n: nat): (i: nat)
    requires n <= |file|
    ensures i <= |file|
    ensures i < |file| ==> i < n && file[i].topicId == 0 && file[i].name == ""
    ensures forall j :: 0 <= j < n && file[j].topicId == 0 && file[j].name == "" ==> j <= i < |file|
  {
    if n == 0 then |file|
    else if file[n - 1].topicId == 0 && file[n - 1].name == "" then n - 1 else Space(file, n - 1)
  }

  predicate Fits(file: seq<Subscription>, name: string, id: uint16) {
    Acceptable(name, id) && Find(file, name, id) == |file| ==> Space(file, |file|) < 0xFFFF
  }

  /** The quality of service a topic is subscribed with under this topic id. */
  function Qos(file: seq<Subscription>, name: string, id: uint16): Option<byte> {
    var k := Find(file, name, id);
    if Acceptable(name, id) && k < |file| then Some(file[k].qos) else None
  }

  function Subscribe(file: seq<Subscription>, name: string, id: uint16, qos: byte): seq<Subscription>
    requires Fits(file, name, id)
  {
    if !Acceptable(name, id) || Find(file, name, id) < |file| then file
    else Put(file, Space(file, |file|), Subscription(id, qos, name))
  }

  function Unsubscribe(file: seq<Subscription>, id: uint16): seq<Subscription> {
    var k := FindId(file, id);
    if id == 0 || k == |file| then file else file[k := HOLE]
  }

  /** add_subscription behind its checks. */
  method AddSubscription(file: seq<Subscription>, name: string, id: uint16, qos: byte)
    returns (newFile: seq<Subscription>)
    requires |file| <= 0xFFFF && Fits(file, name, id)
    ensures newFile == Subscribe(file, name, id, qos)
  {
    if |name| == 0 || |name| >= MAXIMUM_TOPIC_NAME_LENGTH || id == 0 {
      return file;
    }
    var entryNumber, firstEmpty := 0, -1;
    while entryNumber < |file|
      invariant entryNumber <= Find(file, name, id)
      invariant firstEmpty == if Space(file, entryNumber) < |file| then Space(file, entryNumber) else -1
    {
      var entry := file[entryNumber];
      if entry.topicId == 0 && |entry.name| == 0 {
        firstEmpty := entryNumber;
      } else if entry.topicId == id && |entry.name| < MAXIMUM_TOPIC_NAME_LENGTH && entry.name == name {
        return file;
      }
      entryNumber := entryNumber + 1;
    }
    entryNumber := (entryNumber + 1) % 0x1_0000;
    if firstEmpty == -1 {
      firstEmpty := entryNumber - 1;
    }
    return Put(file, firstEmpty, Subscription(id, qos, name));
  }

  /** delete_subscription behind its checks; a topic id that is not there is an error. */
  method DeleteSubscription(file: seq<Subscription>, id: uint16) returns (newFile: seq<Subscription>, error: bool)
    requires |file| <= 0xFFFF
    ensures newFile == Unsubscribe(file, id) && (error <==> id != 0 && FindId(file, id) == |file|)
  {
    if id == 0 {
      return file, false;
    }
    for i := 0 to |file|
      invariant i <= FindId(file, id)
    {
      if file[i].topicId == id {
        return file[i := HOLE], false;
      }
    }
    return file, true;
  }

  /** Subscribing changes the answer for one topic and id only, and not if it is subscribed already. */
  lemma SubscribeSets(file: seq<Subscription>, name: string, id: uint16, qos: byte, topic: string, other: uint16)
    requires Inv(file) && Fits(file, name, id)
    ensures var f := Subscribe(file, name, id, qos);
            && Inv(f)
            && Qos(f, topic, other)
               == if topic == name && other == id && Acceptable(name, id) && Qos(file, name, id).None? then Some(qos)
                  else Qos(file, topic, other)
  {
    var f, slot := Subscribe(file, name, id, qos), Space(file, |file|);
    if Acceptable(name, id) && Find(file, name, id) == |file| {
      SubscribeKeepsInv(file, name, id, qos);
      assert f[slot].Matches(name, id);
      OtherQos(file, f, slot, topic, other);
      OnlyMatch(f, slot);
    }
  }

  lemma SubscribeKeepsInv(file: seq<Subscription>, name: string, id: uint16, qos: byte)
    requires Inv(file) && Fits(file, name, id)
    ensures Inv(Subscribe(file, name, id, qos))
  {
    if Acceptable(name, id) && Find(file, name, id) == |file| {
      forall i | 0 <= i < |file|
        ensures !file[i].Matches(name, id) && (file[i] != HOLE ==> file[i].name != name || file[i].topicId != id)
      {
      }
    }
  }

  lemma OnlyMatch(file: seq<Subscription>, i: nat)
    requires Inv(file) && i < |file| && file[i] != HOLE
    ensures Find(file, file[i].name, file[i].topicId) == i
    ensures Qos(file, file[i].name, file[i].topicId) == Some(file[i].qos)
  {
    assert file[i].Matches(file[i].name, file[i].topicId);
    var k := Find(file, file[i].name, file[i].topicId);
    assert file[k] != HOLE;
  }

  lemma OtherQos(file: seq<Subscription>, f: seq<Subscription>, slot: nat, topic: string, other: uint16)
    requires Inv(file) && Inv(f) && slot < |f| && |file| <= |f| <= |file| + 1 && (|f| > |file| ==> slot == |file|)
    requires forall i :: 0 <= i < |file| && i != slot ==> f[i] == file[i]
    ensures !f[slot].Matches(topic, other) && (slot < |file| ==> !file[slot].Matches(topic, other)) ==>
              Qos(f, topic, other) == Qos(file, topic, other)
  {
    if !f[slot].Matches(topic, other) && (slot < |file| ==> !file[slot].Matches(topic, other)) {
      var k, l := Find(file, topic, other), Find(f, topic, other);
      if k < |file| {
        assert f[k].Matches(topic, other);
      }
      if l < |f| {
        assert file[l].Matches(topic, other);
      }
      if Acceptable(topic, other) && k < |file| {
        OnlyMatch(f, k);
      }
    }
  }

  /** Unsubscribing takes away one subscription with that topic id, if there is one, and nothing else. */
  lemma UnsubscribeClears(file: seq<Subscription>, id: uint16, topic: string, other: uint16)
    requires Inv(file)
    ensures var f, k := Unsubscribe(file, id), FindId(file, id);
            && Inv(f)
            && Qos(f, topic, other)
               == if id != 0 && k < |file| && topic == file[k].name && other == id then None
                  else Qos(file, topic, other)
  {
    var f, k := Unsubscribe(file, id), FindId(file, id);
    if id != 0 && k < |file| {
      assert Inv(f);
      OtherQos(file, f, k, topic, other);
      if topic == file[k].name && other == id {
        OnlyMatch(file, k);
        forall j | 0 <= j < |f|
          ensures !f[j].Matches(topic, other)
        {
          if j > k {
            assert f[j] == file[j];
          }
        }
      }
    }
  }

  // Counting

  function LiveCount(file: seq<Subscription>): (n: nat)
    ensures n <= |file|
    ensures n == 0 <==> forall s <- file :: s.topicId == 0
  {
    if file == [] then 0
    else LiveCount(file[..|file| - 1]) + if file[|file| - 1].topicId != 0 then 1 else 0
  }

  /** get_client_subscription_count behind its checks; entry_number has 16 bits. */
  method SubscriptionCount(file: seq<Subscription>) returns (n: uint16)
    requires |file| <= 0xFFFF
    ensures n == LiveCount(file)
  {
    n := 0;
    for i := 0 to |file|
      invariant n == LiveCount(file[..i])
    {
      assert file[..i + 1][..i] == file[..i];
      if file[i].topicId != 0 {
        n := n + 1;
      }
    }
    assert file[..|file|] == file;
  }
}
