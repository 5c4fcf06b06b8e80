/** The receiving side of the MQTT client (MQTTClient.h, with MQTTCLIENT_QOS2 set): delivery to the message
    handlers and the table of incoming QoS 2 identifiers (MQTT 3.1.1, section 4.3.3). */
module MqttClient {
  import opened Basics
  import opened FixedHeader
  import opened RemainingLength
  import AckPacket
  import PublishPacket
  import opened TopicMatcher

  const MAX_INCOMING_QOS2_MESSAGES: nat := 10
  const FAILURE: int := -1
  const SUCCESS: int := 0

  /** What happened to QoS 2 messages: a message with this identifier was handed to the handlers, a PUBREL that names
      the identifier was answered by a PUBCOMP that could be sent, so was one too short to name any and this identifier
      was taken for it, or the session was cleaned. */
  datatype Event = Delivered(id: uint16) | Released(id: uint16) | Freed(id: uint16) | Cleaned

  /** The event ends what began with a delivery of the identifier: for the standard, if named holds, or for the
      table. */
  predicate Takes(e: Event, id: uint16, named: bool) {
    e == Released(id) || e == Cleaned || (!named && e == Freed(id))
  }

  ghost function Held(log: seq<Event>, named: bool): set<uint16> {
    if log == [] then {}
    else
      var before := Held(log[..|log| - 1], named);
      match log[|log| - 1]
      case Delivered(id) => before + {id}
      case Released(id) => before - {id}
      case Freed(id) => if named then before else before - {id}
      case Cleaned => {}
  }

  /** The identifiers the table holds: delivered and not taken out again. */
  ghost function Pending(log: seq<Event>): set<uint16> {
    Held(log, false)
  }

  /** The identifiers it has to hold: delivered, with no PUBREL for them answered since and the session not cleaned. */
  ghost function Unreleased(log: seq<Event>): set<uint16> {
    Held(log, true)
  }

  ghost function Forgotten(log: seq<Event>): set<uint16> {
    Unreleased(log) - Pending(log)
  }

  ghost predicate TakenBetween(log: seq<Event>, id: uint16, i: int, j: int, named: bool)
    requires 0 <= i <= j <= |log|
  {
    exists k :: i < k < j && Takes(log[k], id, named)
  }

  /** Between two deliveries of an identifier something took it. */
  ghost predicate Guarded(log: seq<Event>, named: bool) {
    forall i, j :: 0 <= i < j < |log| && log[i].Delivered? && log[j] == log[i] ==>
      TakenBetween(log, log[i].id, i, j, named)
  }

  /** Section 4.3.3: between two deliveries of an identifier a PUBREL for it was answered, or the session cleaned. */
  ghost predicate AtMostOnce(log: seq<Event>) {
    Guarded(log, true)
  }

  /** An identifier is held exactly when some delivery of it was not followed by anything that takes it. */
  lemma {:induction false} HeldMeansNotTaken(log: seq<Event>, id: uint16, named: bool)
    ensures id in Held(log, named) <==>
              exists i :: 0 <= i < |log| && log[i] == Delivered(id) && !TakenBetween(log, id, i, |log|, named)
  {
    if log != [] {
      var n := |log| - 1;
      var before := log[..n];
      HeldMeansNotTaken(before, id, named);
      if i :| 0 <= i < n && log[i] == Delivered(id) {
        assert before[i] == log[i];
      }
      forall i | 0 <= i < n
        ensures TakenBetween(log, id, i, |log|, named) <==>
                  TakenBetween(before, id, i, n, named) || Takes(log[n], id, named)
      {
        if k :| i < k < n && Takes(before[k], id, named) {
          assert log[k] == before[k];
        }
        if k :| i < k < |log| && Takes(log[k], id, named) {
          assert k < n ==> before[k] == log[k];
        }
      }
      if id in Held(before, named) && !Takes(log[n], id, named) {
        var i :| 0 <= i < |before| && before[i] == Delivered(id) && !TakenBetween(before, id, i, |before|, named);
        assert log[i] == Delivered(id) && !TakenBetween(log, id, i, |log|, named);
      }
      if i :| 0 <= i < |log| && log[i] == Delivered(id) && !TakenBetween(log, id, i, |log|, named) {
        if i < n {
          assert before[i] == Delivered(id) && !TakenBetween(before, id, i, |before|, named);
        }
      }
      if log[n] == Delivered(id) {
        assert !TakenBetween(log, id, n, |log|, named);
      }
    }
  }

  /** One more delivery keeps the guard up exactly when the identifier is not held. */
  lemma DeliveryAllowedExactly(log: seq<Event>, id: uint16, named: bool)
    requires Guarded(log, named)
    ensures Guarded(log + [Delivered(id)], named) <==> id !in Held(log, named)
  {
    var later := log + [Delivered(id)];
    HeldMeansNotTaken(log, id, named);
    forall i | 0 <= i < |log|
      ensures TakenBetween(later, id, i, |log|, named) <==> TakenBetween(log, id, i, |log|, named)
    {
      if k :| i < k < |log| && Takes(log[k], id, named) {
        assert later[k] == log[k];
      }
    }
    if id !in Held(log, named) {
      forall i, j | 0 <= i < j < |later| && later[i].Delivered? && later[j] == later[i]
        ensures TakenBetween(later, later[i].id, i, j, named)
      {
        assert log[i] == later[i];
        if j < |log| {
          assert log[j] == later[j];
          assert TakenBetween(log, log[i].id, i, j, named);
          var k :| i < k < j && Takes(log[k], log[i].id, named);
          assert later[k] == log[k];
        }
      }
    } else {
      var i :| 0 <= i < |log| && log[i] == Delivered(id) && !TakenBetween(log, id, i, |log|, named);
      assert later[i] == later[|log|] && !TakenBetween(later, id, i, |log|, named);
    }
  }

  lemma OtherEventsAllowed(log: seq<Event>, e: Event, named: bool)
    requires Guarded(log, named) && !e.Delivered?
    ensures Guarded(log + [e], named)
  {
    var later := log + [e];
    forall i, j | 0 <= i < j < |later| && later[i].Delivered? && later[j] == later[i]
      ensures TakenBetween(later, later[i].id, i, j, named)
    {
      assert log[i] == later[i] && log[j] == later[j];
      assert TakenBetween(log, log[i].id, i, j, named);
      var k :| i < k < j && Takes(log[k], log[i].id, named);
      assert later[k] == log[k];
    }
  }

  lemma GuardedBefore(log: seq<Event>, n: nat, named: bool)
    requires Guarded(log, named) && n <= |log|
    ensures Guarded(log[..n], named)
  {
    var before := log[..n];
    forall i, j | 0 <= i < j < n && before[i].Delivered? && before[j] == before[i]
      ensures TakenBetween(before, before[i].id, i, j, named)
    {
      assert log[i] == before[i] && log[j] == before[j];
      assert TakenBetween(log, log[i].id, i, j, named);
      var k :| i < k < j && Takes(log[k], log[i].id, named);
      assert before[k] == log[k];
    }
  }

  // At most once

  predicate NoneFreed(log: seq<Event>) {
    forall e <- log :: !e.Freed?
  }

  /** The table holds no identifier it need not hold. */
  lemma {:induction false} PendingIsUnreleased(log: seq<Event>)
    ensures Pending(log) <= Unreleased(log)
    ensures NoneFreed(log) ==> Forgotten(log) == {}
  {
    if log != [] {
      PendingIsUnreleased(log[..|log| - 1]);
      assert log[|log| - 1] in log;
    }
  }

  /** An identifier is forgotten exactly when a PUBREL that does not name it is answered while it is pending; nothing
      else adds to the forgotten ones, and being delivered again, released or cleaned ends it. */
  lemma ForgottenExactly(log: seq<Event>, e: Event)
    ensures Forgotten(log + [e]) ==
              match e
              case Freed(id) => Forgotten(log) + Pending(log) * {id}
              case Delivered(id) => Forgotten(log) - {id}
              case Released(id) => Forgotten(log) - {id}
              case Cleaned => {}
  {
    PendingIsUnreleased(log);
    var later := log + [e];
    assert later[..|log|] == log;
    assert Held(later, true) == match e
                                case Delivered(id) => Held(log, true) + {id}
                                case Released(id) => Held(log, true) - {id}
                                case Freed(id) => Held(log, true)
                                case Cleaned => {};
  }

  /** No forgotten identifier was delivered. */
  ghost predicate NoneReturned(log: seq<Event>) {
    forall j :: 0 <= j < |log| && log[j].Delivered? ==> log[j].id !in Forgotten(log[..j])
  }

  /** What the table keeps up is the promise of section 4.3.3 exactly as long as no forgotten identifier is delivered;
      so always, while no PUBREL too short to name an identifier is answered. */
  lemma {:induction false} AtMostOnceExactly(log: seq<Event>)
    requires Guarded(log, false)
    ensures AtMostOnce(log) <==> NoneReturned(log)
    ensures NoneFreed(log) ==> AtMostOnce(log)
  {
    if log != [] {
      var n := |log| - 1;
      var before := log[..n];
      GuardedBefore(log, n, false);
      AtMostOnceExactly(before);
      assert log == before + [log[n]];
      assert forall j :: 0 <= j < n ==> before[j] == log[j] && before[..j] == log[..j];
      LastEvent(before, log[n]);
    }
  }

  lemma LastEvent(before: seq<Event>, e: Event)
    requires Guarded(before + [e], false)
    ensures AtMostOnce(before + [e]) <==> AtMostOnce(before) && (e.Delivered? ==> e.id !in Forgotten(before))
    ensures NoneFreed(before + [e]) ==> NoneFreed(before) && Forgotten(before) == {}
  {
    var log := before + [e];
    assert log[..|before|] == before;
    GuardedBefore(log, |before|, false);
    if AtMostOnce(log) {
      GuardedBefore(log, |before|, true);
    }
    if Guarded(before, true) {
      if e.Delivered? {
        DeliveryAllowedExactly(before, e.id, true);
        DeliveryAllowedExactly(before, e.id, false);
      } else {
        OtherEventsAllowed(before, e, true);
      }
    }
    if NoneFreed(log) {
      assert forall x <- before :: x in log;
      PendingIsUnreleased(before);
    }
  }

  /** The identifiers in the table; 0 marks a free slot. */
  ghost function Ids(table: seq<uint16>): set<uint16> {
    set i | 0 <= i < |table| && table[i] != 0 :: table[i]
  }

  ghost predicate Distinct(table: seq<uint16>) {
    forall i, j :: 0 <= i < j < |table| && table[i] != 0 ==> table[i] != table[j]
  }

  function FreeSlots(table: seq<uint16>): nat {
    if table == [] then 0 else (if table[0] == 0 then 1 else 0) + FreeSlots(table[1..])
  }

  lemma {:induction false} TableCount(table: seq<uint16>)
    requires Distinct(table)
    ensures |Ids(table)| + FreeSlots(table) == |table|
    ensures FreeSlots(table) == 0 <==> 0 !in table
  {
    if table != [] {
      var rest := table[1..];
      TableCount(rest);
      assert forall i :: 0 <= i < |rest| ==> rest[i] == table[i + 1];
      if table[0] == 0 {
        assert Ids(table) == Ids(rest);
      } else {
        assert table[0] !in Ids(rest);
        assert Ids(table) == {table[0]} + Ids(rest);
      }
    }
  }

  datatype MessageHandler = MessageHandler(topicFilter: Option<string>, attached: bool) {
    /** Whether this handler is to be called for a topic. */
    ghost predicate Wants(topic: string) {
      && attached && topicFilter.Some?
      && (topicFilter.value == topic || LoopMatches(Levels(topicFilter.value), Levels(topic)))
    }
  }

  datatype Message = Message(qos: nat, retained: nat, dup: nat, id: uint16, payload: seq<byte>)

  /** What the receiver does to the outside: a message is handed to the handlers with these indices, or to the default
      handler, and a packet is given to the network. */
  datatype Effect = Handed(topic: string, message: Message, called: seq<nat>, default: bool)
    | Answered(packet: seq<byte>)

  datatype Receiver = Receiver(log: seq<Event>, effects: seq<Effect>, handlers: seq<MessageHandler>,
                               defaultAttached: bool)

  /** The handlers called for a topic, in the order of the table. */
  ghost function Calls(handlers: seq<MessageHandler>, topic: string): seq<nat> {
    if handlers == [] then []
    else
      var n := |handlers| - 1;
      Calls(handlers[..n], topic) + if handlers[n].Wants(topic) then [n] else []
  }

  predicate Ascending(s: seq<nat>, n: nat) {
    && (forall i :: 0 <= i < |s| ==> s[i] < n)
    && (forall i, j :: 0 <= i < j < |s| ==> s[i] < s[j])
  }

  lemma {:induction false} CallsExactly(handlers: seq<MessageHandler>, topic: string)
    ensures forall i: nat :: i in Calls(handlers, topic) <==> i < |handlers| && handlers[i].Wants(topic)
    ensures Ascending(Calls(handlers, topic), |handlers|)
  {
    if handlers != [] {
      var n := |handlers| - 1;
      CallsExactly(handlers[..n], topic);
      assert forall i :: 0 <= i < n ==> handlers[..n][i] == handlers[i];
      assert Ascending(Calls(handlers[..n], topic), n);
    }
  }

  class Client {
    const incomingQoS2messages: array<uint16>
    const messageHandlers: array<MessageHandler>
    var defaultAttached: bool
    var isconnected: bool
    ghost var log: seq<Event>
    ghost var effects: seq<Effect>

    ghost function State(): Receiver
      reads this, messageHandlers
    {
      Receiver(log, effects, messageHandlers[..], defaultAttached)
    }

    ghost predicate Valid()
      reads this, incomingQoS2messages, messageHandlers
    {
      && incomingQoS2messages.Length == MAX_INCOMING_QOS2_MESSAGES
      && incomingQoS2messages as object != messageHandlers as object
      && Distinct(incomingQoS2messages[..])
      && Ids(incomingQoS2messages[..]) == Pending(log)
      && Guarded(log, false)
      && forall i :: 0 <= i < messageHandlers.Length && messageHandlers[i].topicFilter.Some? ==>
           WellFormed(Levels(messageHandlers[i].topicFilter.value))
    }

    constructor (handlers: nat)
      ensures Valid() && fresh(incomingQoS2messages) && fresh(messageHandlers)
      ensures log == [Cleaned] && effects == [] && messageHandlers.Length == handlers
    {
      incomingQoS2messages := new uint16[MAX_INCOMING_QOS2_MESSAGES](i => 0);
      messageHandlers := new MessageHandler[handlers](i => MessageHandler(None, false));
      defaultAttached, isconnected := false, false;
      log, effects := [Cleaned], [];
    }

    /** cleanSession. */
    method CleanSession()
      requires Valid()
      modifies this, incomingQoS2messages, messageHandlers
      ensures Valid() && State() == Cleared(old(State())) && !isconnected
    {
      hide Guarded, Distinct, Ids, Pending, Levels, WellFormed;
      ClearFilters();
      isconnected := false;
      for i := 0 to MAX_INCOMING_QOS2_MESSAGES
        invariant forall j :: 0 <= j < i ==> incomingQoS2messages[j] == 0
        invariant State() == old(State()).(handlers := Unfiltered(old(messageHandlers[..]))) && !isconnected
      {
        incomingQoS2messages[i] := 0;
      }
      NothingPending(incomingQoS2messages[..], log);
      OtherEventsAllowed(log, Cleaned, false);
      log := log + [Cleaned];
    }

    /** Its first loop. */
    method ClearFilters()
      modifies messageHandlers
      ensures messageHandlers[..] == Unfiltered(old(messageHandlers[..]))
    {
      for i := 0 to messageHandlers.Length
        invariant forall j :: 0 <= j < i ==> messageHandlers[j] == old(messageHandlers[j]).(topicFilter := None)
        invariant forall j :: i <= j < messageHandlers.Length ==> messageHandlers[j] == old(messageHandlers[j])
      {
        messageHandlers[i] := messageHandlers[i].(topicFilter := None);
      }
    }

    /** isQoS2msgidFree. */
    method IsQoS2MsgIdFree(id: uint16) returns (free: bool)
      requires Valid()
      ensures free <==> id !in incomingQoS2messages[..]
    {
      for i := 0 to incomingQoS2messages.Length
        invariant id !in incomingQoS2messages[..i]
      {
        if incomingQoS2messages[i] == id {
          return false;
        }
      }
      return true;
    }

    /** useQoS2msgid: the first free slot, if there is one. */
    method UseQoS2MsgId(id: uint16) returns (used: bool)
      requires Valid() && id !in incomingQoS2messages[..]
      modifies incomingQoS2messages
      ensures used <==> |old(Pending(log))| < MAX_INCOMING_QOS2_MESSAGES
      ensures !used ==> incomingQoS2messages[..] == old(incomingQoS2messages[..])
      ensures used ==> Distinct(incomingQoS2messages[..]) && Ids(incomingQoS2messages[..]) == Pending(log) + {id}
    {
      ghost var table := incomingQoS2messages[..];
      TableCount(table);
      for i := 0 to incomingQoS2messages.Length
        invariant incomingQoS2messages[..] == table && 0 !in table[..i]
      {
        if incomingQoS2messages[i] == 0 {
          assert table[i] == 0 && 0 in table;
          incomingQoS2messages[i] := id;
          SlotTaken(table, i, id);
          assert incomingQoS2messages[..] == table[i := id];
          return true;
        }
      }
      return false;
    }

    /** freeQoS2msgid: at most one slot holds the identifier. */
    method FreeQoS2MsgId(id: uint16)
      requires Valid()
      modifies incomingQoS2messages
      ensures Distinct(incomingQoS2messages[..]) && Ids(incomingQoS2messages[..]) == Pending(log) - {id}
    {
      ghost var table := incomingQoS2messages[..];
      for i := 0 to incomingQoS2messages.Length
        invariant incomingQoS2messages[..] == table && id !in table[..i]
      {
        if incomingQoS2messages[i] == id {
          incomingQoS2messages[i] := 0;
          SlotFreed(table, i);
          assert incomingQoS2messages[..] == table[i := 0];
          return;
        }
      }
    }

    /** deliverMessage: every attached handler whose filter is the topic or matches it is called, in table order,
        and the default handler exactly when there is none. */
    method DeliverMessage(topic: string, message: Message) returns (rc: int)
      requires Valid()
      modifies `effects
      ensures var called := Calls(messageHandlers[..], topic);
              && effects == old(effects) + [Handed(topic, message, called, called == [] && defaultAttached)]
              && rc == (if called != [] || defaultAttached then SUCCESS else FAILURE)
    {
      rc := FAILURE;
      ghost var called: seq<nat>, table := [], messageHandlers[..];
      for i := 0 to messageHandlers.Length
        invariant effects == old(effects)
        invariant called == Calls(table[..i], topic) && rc == if called != [] then SUCCESS else FAILURE
      {
        assert table[..i + 1][..i] == table[..i];
        var handler := messageHandlers[i];
        if handler.topicFilter.Some? {
          var matched := handler.topicFilter.value == topic;
          if !matched {
            matched := IsTopicMatched(handler.topicFilter.value, topic);
          }
          if matched && handler.attached {
            called := called + [i];
            rc := SUCCESS;
          }
        }
      }
      assert table[..|table|] == table;
      effects := effects + [Handed(topic, message, called, rc == FAILURE && defaultAttached)];
      if rc == FAILURE && defaultAttached {
        rc := SUCCESS;
      }
    }

    /** The PUBLISH case of cycle; acked says whether the acknowledgement could be sent.  A QoS 2 message is delivered
        exactly when its identifier is not pending and the table has room; with a full table it is acknowledged all the
        same. */
    method OnPublish(topic: string, message: Message, acked: bool) returns (rc: int)
      requires Valid() && message.qos < 4
      modifies this, incomingQoS2messages
      ensures Valid() && State() == Took(old(State()), topic, message)
      ensures rc == if message.qos == 0 || (message.qos < 3 && acked) then SUCCESS else FAILURE
    {
      if message.qos != 2 {
        var status := DeliverMessage(topic, message);
      } else {
        var free := IsQoS2MsgIdFree(message.id);
        TableCount(incomingQoS2messages[..]);
        assert message.id != 0 ==>
            (message.id in incomingQoS2messages[..] <==> message.id in Ids(incomingQoS2messages[..]));
        if free {
          var used := UseQoS2MsgId(message.id);
          if used {
            DeliveryAllowedExactly(log, message.id, false);
            log := log + [Delivered(message.id)];
            var status := DeliverMessage(topic, message);
          }
        }
      }
      if message.qos == 0 {
        return SUCCESS;
      }
      if message.qos == 3 {
        return FAILURE;
      }
      Send(if message.qos == 1 then PUBACK else PUBREC, message.id);
      return if acked then SUCCESS else FAILURE;
    }

    /** An acknowledgement is serialized and given to the network. */
    method Send(kind: nat, id: uint16)
      requires kind < 16
      modifies `effects
      ensures effects == old(effects) + [Answered(AckPacket.Wire(kind, 0, id))]
    {
      hide AckPacket.Wire;
      var sendbuf := new byte[4];
      var len := AckPacket.Serialize(sendbuf, 4, kind, 0, id);
      assert sendbuf[..] == sendbuf[..4];
      effects := effects + [Answered(sendbuf[..])];
    }

    /** The PUBLISH case of cycle, from the bytes in readbuf.  A publish whose topic is rejected with a one-byte length
        field passes for a good one, and so does one read past its end; identifier, topic and payload are then whatever
        the variables held. */
    method OnPublishPacket(packet: seq<byte>, stray: Leftover, acked: bool) returns (rc: int)
      requires Valid() && packet != [] && TypeOf(packet[0]) == PUBLISH
      modifies this, incomingQoS2messages
      ensures Valid()
      ensures match ReadPublish(packet, stray)
              case Ignored => State() == old(State()) && rc == SUCCESS
              case Taken(topic, message) =>
                && State() == Took(old(State()), topic, message)
                && rc == if message.qos == 0 || (message.qos < 3 && acked) then SUCCESS else FAILURE
    {
      hide PublishPacket.Parse, Took;
      var parsed := PublishPacket.Deserialize(packet);
      if parsed.Rejected? && parsed.rc != 1 {
        return SUCCESS;
      }
      var topic, message := stray.topic, Message(QosOf(packet[0]), RetainOf(packet[0]), DupOf(packet[0]), stray.id,
                                                 stray.payload);
      if parsed.Parsed? {
        topic := Text(parsed.value.topic);
        message := Message(parsed.value.qos, parsed.value.retained, parsed.value.dup,
                           if parsed.value.packetId.Some? then parsed.value.packetId.value else stray.id,
                           parsed.value.payload);
      }
      assert ReadPublish(packet, stray) == Taken(topic, message);
      rc := OnPublish(topic, message, acked);
    }

    /** The PUBREC and PUBREL cases of cycle, from the bytes in readbuf; acked says whether the answer could be sent.
        An identifier is freed only after the PUBCOMP was sent; a PUBREL too short to name one frees whatever the
        variable held. */
    method OnAckPacket(packet: seq<byte>, stray: Leftover, acked: bool) returns (rc: int)
      requires Valid() && |packet| >= 8 && TypeOf(packet[0]) in {PUBREC, PUBREL}
      modifies this, incomingQoS2messages
      ensures Valid() && State() == Acknowledged(old(State()), TypeOf(packet[0]), ReadAck(packet, stray.id), acked)
      ensures rc == if ReadAck(packet, stray.id).Unread? || !acked then FAILURE else SUCCESS
    {
      hide AckPacket.Parse, AckPacket.Wire, Guarded, Distinct, Ids, Pending, Levels, WellFormed;
      var r := ReadAck(packet, stray.id);
      if r.Unread? {
        return FAILURE;
      }
      Send(if TypeOf(packet[0]) == PUBREC then PUBREL else PUBCOMP, r.id);
      if !acked {
        return FAILURE;
      }
      if TypeOf(packet[0]) == PUBREL {
        FreeQoS2MsgId(r.id);
        ghost var e := if r.Named? then Released(r.id) else Freed(r.id);
        OtherEventsAllowed(log, e, false);
        NotPendingAfter(log, e, r.id);
        log := log + [e];
      }
      return SUCCESS;
    }
  }

  // What each packet does to the receiver

  function Unfiltered(handlers: seq<MessageHandler>): (h: seq<MessageHandler>)
    ensures |h| == |handlers|
  {
    seq(|handlers|, i requires 0 <= i < |handlers| => handlers[i].(topicFilter := None))
  }

  ghost function Cleared(r: Receiver): Receiver {
    r.(log := r.log + [Cleaned], handlers := Unfiltered(r.handlers))
  }

  ghost function Took(r: Receiver, topic: string, m: Message): Receiver {
    var called := Calls(r.handlers, topic);
    var handed := Handed(topic, m, called, called == [] && r.defaultAttached);
    var taken := if !Accepts(Pending(r.log), m.qos, m.id) then r
                 else r.(log := if m.qos == 2 then r.log + [Delivered(m.id)] else r.log,
                         effects := r.effects + [handed]);
    if m.qos == 1 then taken.(effects := taken.effects + [Answered(AckPacket.Wire(PUBACK, 0, m.id))])
    else if m.qos == 2 then taken.(effects := taken.effects + [Answered(AckPacket.Wire(PUBREC, 0, m.id))])
    else taken
  }

  ghost function Acknowledged(r: Receiver, kind: nat, ack: AckReading, acked: bool): Receiver {
    if ack.Unread? then r
    else
      var answer := Answered(AckPacket.Wire(if kind == PUBREC then PUBREL else PUBCOMP, 0, ack.id));
      var sent := r.(effects := r.effects + [answer]);
      if !acked || kind != PUBREL then sent
      else sent.(log := r.log + [if ack.Named? then Released(ack.id) else Freed(ack.id)])
  }

  /** A topic as the C string functions see it. */
  function Text(bytes: seq<byte>): string {
    seq(|bytes|, i requires 0 <= i < |bytes| => bytes[i] as char)
  }

  /** What the variables of cycle hold when nothing was stored in them. */
  datatype Leftover = Leftover(id: uint16, topic: string, payload: seq<byte>)

  /** What cycle makes of a PUBLISH: nothing, or a message on a topic. */
  datatype PublishReading = Ignored | Taken(topic: string, message: Message)

  function ReadPublish(packet: seq<byte>, stray: Leftover): (r: PublishReading)
    requires packet != []
    ensures r.Taken? ==> r.message.qos < 4
  {
    var unread := Taken(stray.topic, Message(QosOf(packet[0]), RetainOf(packet[0]), DupOf(packet[0]), stray.id,
                                             stray.payload));
    match PublishPacket.Parse(packet)
    case Parsed(p) =>
      Taken(Text(p.topic), Message(p.qos, p.retained, p.dup, if p.packetId.Some? then p.packetId.value else stray.id,
                                   p.payload))
    case Rejected(rc) => if rc == 1 then unread else Ignored
    case Overrun => unread
  }

  /** A message is handed on unless it is of quality of service 2 and its identifier is 0, pending, or finds no room. */
  ghost predicate Accepts(pending: set<uint16>, qos: nat, id: uint16) {
    qos != 2 || (id != 0 && id !in pending && |pending| < MAX_INCOMING_QOS2_MESSAGES)
  }

  /** What cycle makes of an acknowledgement: MQTTDeserialize_ack returns the number of length bytes for one that is too
      short, and cycle compares with 1. */
  datatype AckReading = Unread | Named(id: uint16) | Stray(id: uint16)

  function ReadAck(packet: seq<byte>, strayId: uint16): (r: AckReading) {
    match AckPacket.Parse(packet)
    case Parsed(a) => Named(a.packetId)
    case Rejected(rc) => if rc == 1 then Stray(strayId) else Unread
    case Overrun => Unread
  }

  /** The identifier is made up exactly for an acknowledgement with a body of less than two bytes and a length field of
      one; readbuf is never too short for the reader. */
  lemma StrayExactly(packet: seq<byte>, strayId: uint16)
    requires |packet| >= 8
    ensures ReadAck(packet, strayId).Stray? <==> packet[1] < 2
    ensures !AckPacket.Parse(packet).Overrun?
  {
    AckPacket.NeverOverruns(packet);
    if AckPacket.Parse(packet).Rejected? {
      AckPacket.RejectedAsSuccess(packet);
    }
  }

  lemma NotPendingAfter(log: seq<Event>, e: Event, id: uint16)
    requires e == Released(id) || e == Freed(id)
    ensures Pending(log + [e]) == Pending(log) - {id}
  {
    assert (log + [e])[..|log|] == log;
  }

  lemma NothingPending(table: seq<uint16>, log: seq<Event>)
    requires forall i :: 0 <= i < |table| ==> table[i] == 0
    ensures Distinct(table) && Ids(table) == Pending(log + [Cleaned])
  {
  }

  lemma SlotTaken(table: seq<uint16>, i: nat, id: uint16)
    requires Distinct(table) && i < |table| && table[i] == 0 && id != 0 && id !in table
    ensures Distinct(table[i := id]) && Ids(table[i := id]) == Ids(table) + {id}
  {
    var later := table[i := id];
    assert later[i] == id;
    forall x | x in Ids(table)
      ensures x in Ids(later)
    {
      var k :| 0 <= k < |table| && table[k] != 0 && table[k] == x;
      assert later[k] == x;
    }
  }

  lemma SlotFreed(table: seq<uint16>, i: nat)
    requires Distinct(table) && i < |table|
    ensures Distinct(table[i := 0]) && Ids(table[i := 0]) == Ids(table) - {table[i]}
  {
    var later := table[i := 0];
    forall x | x in Ids(table) && x != table[i]
      ensures x in Ids(later)
    {
      var k :| 0 <= k < |table| && table[k] != 0 && table[k] == x;
      assert later[k] == x;
    }
  }

  /** Anything that can happen to the receiver: a packet in readbuf, with what the variables of cycle held and whether
      the answer could be sent, or a clean session. */
  datatype Input = Arrives(packet: seq<byte>, stray: Leftover, acked: bool) | Clean {
    /** A PUBREL without room for an identifier that is answered. */
    predicate Misleading() {
      Arrives? && |packet| >= 8 && TypeOf(packet[0]) == PUBREL && packet[1] < 2 && acked
    }

    predicate Fits() {
      Arrives? ==> |packet| >= 8
    }
  }

  /** What one turn of cycle does to the receiver. */
  ghost function After(r: Receiver, input: Input): Receiver
    requires input.Fits()
  {
    match input
    case Clean => Cleared(r)
    case Arrives(packet, stray, acked) =>
      var kind := TypeOf(packet[0]);
      if kind == PUBLISH then
        match ReadPublish(packet, stray)
        case Ignored => r
        case Taken(topic, message) => Took(r, topic, message)
      else if kind == PUBREC || kind == PUBREL then Acknowledged(r, kind, ReadAck(packet, stray.id), acked)
      else r
  }

  ghost function History(start: Receiver, inputs: seq<Input>): Receiver
    requires forall input <- inputs :: input.Fits()
  {
    if inputs == [] then start
    else
      assert inputs[|inputs| - 1] in inputs;
      After(History(start, inputs[..|inputs| - 1]), inputs[|inputs| - 1])
  }

  /** A message goes to the attached handlers that want its topic, in the order of the table, or to the default one. */
  ghost predicate HandedExactly(h: Effect, topic: string, message: Message, r: Receiver) {
    && h.Handed? && h.topic == topic && h.message == message
    && Ascending(h.called, |r.handlers|)
    && (forall i: nat :: i in h.called <==> i < |r.handlers| && r.handlers[i].Wants(topic))
    && (h.default <==> h.called == [] && r.defaultAttached)
  }

  /** A publish that was written, wherever it lies in readbuf's contents, reaches exactly the attached handlers whose
      filter is its topic or matches it, in the order of the table, or else the default handler, with every field as it
      was sent; unless it is of quality of service 2 and its identifier is 0, pending, or finds no room.  It is answered
      by a PUBACK or PUBREC with its identifier in any case. */
  lemma PublishReachesHandlers(r: Receiver, p: PublishPacket.Publish, rest: seq<byte>, stray: Leftover, acked: bool)
    requires PublishPacket.Representable(p) && 0 <= p.qos < 3 && |PublishPacket.Body(p)| <= MAX_REMAINING_LENGTH
    requires |PublishPacket.Wire(p) + rest| >= 8
    ensures var later := After(r, Arrives(PublishPacket.Wire(p) + rest, stray, acked));
            var id, topic := if p.qos > 0 then p.packetId else stray.id, Text(p.topic.Content());
            var accepted := p.qos != 2 || (id != 0 && id !in Pending(r.log) && |Pending(r.log)| < 10);
            var answers := if p.qos == 0 then []
                           else [Answered([if p.qos == 1 then 0x40 else 0x50, 2, id / 256, id % 256])];
            && later.handlers == r.handlers && later.defaultAttached == r.defaultAttached
            && later.log == (if accepted && p.qos == 2 then r.log + [Delivered(id)] else r.log)
            && (if !accepted then later.effects == r.effects + answers
                else exists h: Effect ::
                       && later.effects == r.effects + [h] + answers
                       && HandedExactly(h, topic, Message(p.qos, p.retained, p.dup, id, p.payload), r))
  {
    hide PublishPacket.Parse, PublishPacket.Wire, PublishPacket.Body, Calls, Pending, Text;
    var packet := PublishPacket.Wire(p) + rest;
    PublishPacket.RoundTrip(p, rest);
    HeaderOf(p, rest);
    var id, topic := if p.qos > 0 then p.packetId else stray.id, Text(p.topic.Content());
    var m := Message(p.qos, p.retained, p.dup, id, p.payload);
    assert ReadPublish(packet, stray) == Taken(topic, m);
    CallsExactly(r.handlers, topic);
    AckPacket.FirstBytes(id);
    hide AckPacket.Wire;
    var called := Calls(r.handlers, topic);
    var h := Handed(topic, m, called, called == [] && r.defaultAttached);
    assert After(r, Arrives(packet, stray, acked)) == Took(r, topic, m);
    assert HandedExactly(h, topic, m, r);
  }

  lemma HeaderOf(p: PublishPacket.Publish, rest: seq<byte>)
    ensures var packet := PublishPacket.Wire(p) + rest; packet != [] && TypeOf(packet[0]) == PUBLISH
  {
    hide PublishPacket.Body, HeaderByte;
  }

  /** A whole publish whose topic does not fit into it is taken for a message on a topic that was never sent exactly
      when its length field is a single byte; otherwise nothing happens. */
  lemma MisreadPublish(r: Receiver, header: byte, body: seq<byte>, stray: Leftover, acked: bool)
    requires TypeOf(header) == 3 && |body| <= MAX_REMAINING_LENGTH && |Packet(header, body)| >= 8
    requires |body| < 2 || 2 + FromBigEndian16(body[..2]) > |body|
    ensures After(r, Arrives(Packet(header, body), stray, acked))
         == if |body| < 128
            then Took(r, stray.topic, Message(QosOf(header), RetainOf(header), DupOf(header), stray.id, stray.payload))
            else r
  {
    hide PublishPacket.Parse, Took;
    PublishPacket.RejectedExactly(header, body);
    assert |Encoding(|body|)| == 1 <==> |body| < 128;
    hide Encoding, TypeOf, QosOf;
  }

  /** A PUBREL that names an identifier is answered by a PUBCOMP that names it, and released if that could be sent; a
      PUBREC is answered by a PUBREL that names the same. */
  lemma AckAnswered(r: Receiver, id: uint16, rest: seq<byte>, stray: Leftover, acked: bool)
    requires |rest| >= 4
    ensures After(r, Arrives([0x62, 2, id / 256, id % 256] + rest, stray, acked))
         == Receiver(if acked then r.log + [Released(id)] else r.log,
                     r.effects + [Answered([0x70, 2, id / 256, id % 256])], r.handlers, r.defaultAttached)
    ensures After(r, Arrives([0x50, 2, id / 256, id % 256] + rest, stray, acked))
         == r.(effects := r.effects + [Answered([0x62, 2, id / 256, id % 256])])
  {
    hide AckPacket.Parse;
    AckPacket.FirstBytes(id);
    AckPacket.RoundTrip(PUBREL, 0, id, rest);
    AckPacket.RoundTrip(PUBREC, 0, id, rest);
    hide AckPacket.Wire;
  }

  /** A clean session forgets what is pending and every filter, and hands on nothing. */
  lemma CleanForgets(r: Receiver, topic: string)
    ensures var later := After(r, Clean);
            && Pending(later.log) == Unreleased(later.log) == {} && later.effects == r.effects
            && |later.handlers| == |r.handlers| && later.defaultAttached == r.defaultAttached
            && forall h <- later.handlers :: !h.Wants(topic)
  {
  }

  /** In every run, whatever bytes arrive and whichever acknowledgements get through, no QoS 2 identifier is delivered
      twice without a PUBREL for it, or a clean session, in between, exactly unless one came again that was forgotten:
      freed, while it was pending, by a PUBREL that did not name it.  Without such a PUBREL answered none is. */
  lemma {:induction false} AtMostOnceInEveryRun(start: Receiver, inputs: seq<Input>)
    requires Guarded(start.log, false) && forall input <- inputs :: input.Fits()
    ensures var log := History(start, inputs).log;
            && Guarded(log, false)
            && (AtMostOnce(log) <==> NoneReturned(log))
            && (NoneFreed(start.log) && (forall input <- inputs :: !input.Misleading()) ==>
                  NoneFreed(log) && AtMostOnce(log))
  {
    hide Guarded, AtMostOnce, NoneReturned, NoneFreed, After, Input.Misleading, Input.Fits;
    if inputs != [] {
      var n := |inputs| - 1;
      assert inputs[n] in inputs && forall earlier <- inputs[..n] :: earlier in inputs;
      AtMostOnceInEveryRun(start, inputs[..n]);
      StepGuarded(History(start, inputs[..n]), inputs[n]);
      StepFrees(History(start, inputs[..n]), inputs[n]);
    }
    AtMostOnceExactly(History(start, inputs).log);
  }

  lemma StepGuarded(r: Receiver, input: Input)
    requires Guarded(r.log, false) && input.Fits()
    ensures Guarded(After(r, input).log, false)
  {
    hide Guarded, ReadPublish, ReadAck, Calls, AckPacket.Wire;
    var log, later := r.log, After(r, input).log;
    if later != log {
      var e := later[|log|];
      assert later == log + [e];
      if e.Delivered? {
        DeliveryAllowedExactly(log, e.id, false);
      } else {
        OtherEventsAllowed(log, e, false);
      }
    }
  }

  lemma StepFrees(r: Receiver, input: Input)
    requires input.Fits()
    ensures NoneFreed(r.log) && !input.Misleading() ==> NoneFreed(After(r, input).log)
  {
    hide ReadPublish, ReadAck, Calls, AckPacket.Wire;
    if input.Arrives? {
      StrayExactly(input.packet, input.stray.id);
    }
  }

  /** One turn of cycle. */
  method Cycle(client: Client, input: Input)
    requires client.Valid() && input.Fits()
    modifies client, client.incomingQoS2messages, client.messageHandlers
    ensures client.Valid() && client.State() == After(old(client.State()), input)
  {
    hide ReadPublish, ReadAck, Took, Cleared, Acknowledged;
    match input
    case Clean =>
      client.CleanSession();
    case Arrives(packet, stray, acked) =>
      var kind := TypeOf(packet[0]);
      if kind == PUBLISH {
        var rc := client.OnPublishPacket(packet, stray, acked);
      } else if kind == PUBREC || kind == PUBREL {
        var rc := client.OnAckPacket(packet, stray, acked);
      }
  }

  /** Any number of turns: messages handed on, packets answered and identifiers delivered, released and freed are the
      history of what arrived, so they keep AtMostOnceInEveryRun, and the table holds exactly the pending
      identifiers. */
  method Run(client: Client, inputs: seq<Input>)
    requires client.Valid() && forall input <- inputs :: input.Fits()
    modifies client, client.incomingQoS2messages, client.messageHandlers
    ensures client.Valid() && client.State() == History(old(client.State()), inputs)
    ensures Ids(client.incomingQoS2messages[..]) == Pending(client.log)
    ensures AtMostOnce(client.log) <==> NoneReturned(client.log)
  {
    hide Guarded, AtMostOnce, NoneReturned, Pending, After, Input.Fits;
    ghost var start := client.State();
    for i := 0 to |inputs|
      invariant client.Valid() && client.State() == History(start, inputs[..i])
    {
      assert inputs[i] in inputs && inputs[..i + 1][..i] == inputs[..i];
      Cycle(client, inputs[i]);
    }
    assert inputs[..|inputs|] == inputs;
    AtMostOnceInEveryRun(start, inputs);
  }

  const FRESH := Receiver([Cleaned], [], [], false)

  /** A QoS 2 message, a two-byte PUBREL that is answered while the variable happens to hold its identifier, and the
      message again: it is delivered twice, and no PUBREL named it. */
  lemma DeliveredTwiceExample(publish: seq<byte>, pubrel: seq<byte>, held: Leftover)
    requires publish == [0x34, 5, 0, 1, 0x61, 0, 5, 0] && pubrel == [0x62, 0, 0, 0, 0, 0, 0, 0] && held.id == 5
    ensures var again := Arrives(publish, held, true);
            var log := History(FRESH, [again, Arrives(pubrel, held, true), again]).log;
            log == [Cleaned, Delivered(5), Freed(5), Delivered(5)] && !AtMostOnce(log)
  {
    hide ReadPublish, ReadAck, Guarded, Pending, Calls, AckPacket.Wire;
    var again, short := Arrives(publish, held, true), Arrives(pubrel, held, true);
    ExampleReads(publish, pubrel, held);
    PendingAfter();
    var inputs := [again, short, again];
    assert inputs[..2] == [again, short] && inputs[..2][..1] == [again] && [again][..0] == [];
    assert History(FRESH, [again]).log == [Cleaned, Delivered(5)];
    assert History(FRESH, inputs[..2]).log == [Cleaned, Delivered(5), Freed(5)];
    TwiceIsTooOften();
  }

  lemma ExampleReads(publish: seq<byte>, pubrel: seq<byte>, held: Leftover)
    requires publish == [0x34, 5, 0, 1, 0x61, 0, 5, 0] && pubrel == [0x62, 0, 0, 0, 0, 0, 0, 0] && held.id == 5
    ensures var r := ReadPublish(publish, held); r.Taken? && r.message.qos == 2 && r.message.id == 5
    ensures ReadAck(pubrel, held.id) == Stray(5)
  {
    assert Decoding(publish[1..]) == (1, 5);
    assert publish[2..4] == [0, 1] && publish[5..7] == [0, 5];
  }

  lemma PendingAfter()
    ensures Pending([Cleaned]) == {} && Pending([Cleaned, Delivered(5), Freed(5)]) == {}
  {
    var log := [Cleaned, Delivered(5), Freed(5)];
    assert log[..2] == [Cleaned, Delivered(5)] && log[..2][..1] == [Cleaned];
    assert Held([Cleaned], false) == {};
    assert Held(log[..2], false) == {5};
  }

  lemma TwiceIsTooOften()
    ensures !AtMostOnce([Cleaned, Delivered(5), Freed(5), Delivered(5)])
  {
    var log := [Cleaned, Delivered(5), Freed(5), Delivered(5)];
    assert log[1].Delivered? && log[3] == log[1] && !TakenBetween(log, 5, 1, 3, true);
  }
}
