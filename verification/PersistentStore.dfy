/** The store as it runs: fields changed in place, scans of the files (LinuxPersistent.cpp). */
module PersistentStore {
  import opened Basics
  import opened SlotFile
  import opened ClientStore
  import R = Registrations
  import S = Subscriptions
  import P = PublishQueue
  import G = GlobalSubscriptions

  /** The files of the current client: in order, and all four there; without a current client none is there. */
  ghost predicate FilesReady(s: Store) {
    s.started ==>
      && FilesInv(FilesOf(s.sd, s.entry.fileNumber))
      && (!s.missing ==> AllThere(s))
      && (s.missing ==> FilesOf(s.sd, s.entry.fileNumber) == NO_FILES && s.entry.fileNumber !in s.sd.subs)
  }

  predicate AllThere(s: Store) {
    var n := s.entry.fileNumber;
    n in s.sd.regs && n in s.sd.subs && n in s.sd.wills && n in s.sd.pubs
  }

  /** What the methods ask for holds in every reachable store. */
  lemma Ready(s: Store)
    requires Inv(s)
    ensures FilesReady(s) && IdsFit(s.sd.registry)
  {
    hide FilesInv, Print8;
    var i := Atoi(s.entry.fileNumber);
    if s.started && !s.missing {
      FileNumber(i);
      assert Owned(s.sd.registry, s.entry.fileNumber);
    } else if s.started {
      assert !Owned(s.sd.registry, "");
      NoFilesAtAll();
    }
  }

  lemma NoFilesAtAll()
    ensures FilesInv(NO_FILES)
  {
  }

  /** Every client id in the registry ends within its field. */
  predicate IdsFit(registry: seq<Entry>) {
    forall e <- registry :: |e.clientId| < MAXIMUM_CLIENT_ID_LENGTH
  }

  class LinuxPersistent {
    // The SD card: the client registry, the four files of each client by file number, the subscription counts
    var registry: seq<Entry>
    var regs: map<string, seq<R.Registration>>
    var subs: map<string, seq<S.Subscription>>
    var wills: map<string, seq<Will>>
    var pubs: map<string, seq<P.Publish>>
    var topicCounts: seq<G.TopicCount>

    var entry: Entry
    var error: bool
    var started: bool
    var missing: bool

    ghost function State(): Store
      reads this
    {
      Store(Disk(registry, regs, subs, wills, pubs), entry, error, started, missing)
    }

    constructor ()
      ensures State() == Store(Disk([], map[], map[], map[], map[]), HOLE, false, false, false) && topicCounts == []
    {
      registry, regs, subs, wills, pubs, topicCounts := [], map[], map[], map[], map[], [];
      entry, error, started, missing := HOLE, false, false, false;
    }

    /** begin on the card as it is: the clients stay, the counts over all clients start anew. */
    method Begin()
      modifies `started, `missing, `topicCounts
      ensures State() == BeginStep(old(State())) && topicCounts == []
    {
      started, missing := false, false;
      topicCounts := [];
    }

    // Transactions

    /** start_client_transaction by client id. */
    method StartClientTransaction(id: string)
      requires IdsFit(registry)
      modifies `entry, `error, `started, `missing
      ensures State() == StartIdStep(old(State()), id)
    {
      if started {
        error := true;
        return;
      }
      if |id| >= MAXIMUM_CLIENT_ID_LENGTH {
        error := true;
        return;
      }
      started, error, missing := true, false, true;
      for line := 0 to |registry|
        invariant line <= FindId(registry, id)
        invariant started && !error && missing
      {
        entry := registry[line];
        if |entry.clientId| < MAXIMUM_CLIENT_ID_LENGTH && entry.clientId == id {
          missing := false;
          return;
        }
      }
      entry := HOLE;
    }

    /** start_client_transaction by device address. */
    method StartClientTransactionByAddress(address: Address)
      requires IdsFit(registry)
      modifies `entry, `error, `started, `missing
      ensures State() == StartAddressStep(old(State()), address)
    {
      if started {
        error := true;
        return;
      }
      started, error, missing := true, false, false;
      for line := 0 to |registry|
        invariant line <= FindAddress(registry, address)
        invariant started && !error && !missing
      {
        entry := registry[line];
        if |entry.clientId| < MAXIMUM_CLIENT_ID_LENGTH && entry.info.address == address {
          return;
        }
      }
      entry, missing := HOLE, true;
    }

    /** apply_transaction: 1 exactly when a transaction on a registered client ran without an error. */
    method ApplyTransaction() returns (r: byte)
      modifies `error, `started, `missing
      ensures State() == ApplyStep(old(State()))
      ensures r == if old(State()).Active() then 1 else 0
    {
      var e, s, m := error, started, missing;
      error, started, missing := false, false, false;
      if s {
        if e || m {
          return 0;
        }
        return 1;
      }
      return 0;
    }

    method ClientExist() returns (r: bool)
      ensures r <==> State().Active()
    {
      if !started || error {
        return false;
      }
      return !missing;
    }

    method GetClientSubscriptionCount() returns (n: uint16)
      requires FilesReady(State())
      ensures State().Active() ==> n == S.LiveCount(Open(subs, entry.fileNumber))
      ensures !State().Active() ==> n == 0
    {
      hide S.LiveCount;
      if !started || error || missing {
        return 0;
      }
      n := S.SubscriptionCount(Open(subs, entry.fileNumber));
    }

    /** delete_client. */
    method DeleteClient(id: string)
      requires FilesReady(State()) && IdsFit(registry)
      modifies `registry, `regs, `subs, `wills, `pubs, `entry, `error, `missing
      ensures State() == DeleteStep(old(State()), id)
    {
      hide S.LiveCount, FilesReady, FilesInv;
      if !started || error || missing {
        return;
      }
      if |id| >= MAXIMUM_CLIENT_ID_LENGTH {
        error := true;
        return;
      }
      var count := GetClientSubscriptionCount();
      if count > 0 {
        error := true;
        return;
      }
      regs, subs := regs - {entry.fileNumber}, subs - {entry.fileNumber};
      wills, pubs := wills - {entry.fileNumber}, pubs - {entry.fileNumber};
      ghost var before := State();
      for line := 0 to |registry|
        invariant line <= FindId(registry, id)
        invariant State() == before.(entry := entry)
      {
        entry := registry[line];
        if |entry.clientId| < MAXIMUM_CLIENT_ID_LENGTH && entry.clientId == id {
          entry := HOLE;
          registry := registry[line := entry];
          missing := true;
          return;
        }
      }
      entry, missing := HOLE, true;
    }

    /** find_empty_entry_space_in_registry, with its 16-bit counter. */
    method FindEmptyEntrySpaceInRegistry() returns (entryNumber: uint16)
      modifies `entry
      ensures entryNumber == EmptySlot(registry)
    {
      entryNumber := 0;
      for position := 0 to |registry|
        invariant position <= FindId(registry, "")
        invariant entryNumber == position % SLOTS
      {
        entry := registry[position];
        if |entry.clientId| == 0 {
          return;
        }
        entryNumber := (entryNumber + 1) % SLOTS;
      }
      entry := HOLE;
    }

    /** add_client; create_file leaves a file that is there as it is. */
    method AddClient(id: string, address: Address, duration: uint32)
      modifies `registry, `regs, `subs, `wills, `pubs, `entry, `error, `missing
      ensures State() == AddStep(old(State()), id, address, duration)
      ensures old(State().missing) && !missing ==> Anew(entry.info, address, duration)
    {
      hide Print8, FindId;
      if !started {
        return;
      }
      if error {
        return;
      }
      if !missing || |id| >= MAXIMUM_CLIENT_ID_LENGTH {
        error := true;
        return;
      }
      var emptySpace := FindEmptyEntrySpaceInRegistry();
      var n := Print8(emptySpace);
      entry := Entry(id, n, Info(address, ACTIVE, duration, 0, 0, MQTTSN_PINGREQ));
      regs := Touch(regs, n);
      subs := Touch(subs, n);
      wills := Touch(wills, n);
      pubs := Touch(pubs, n);
      registry := Put(registry, emptySpace, entry);
      missing := false;
    }

    /** reset_client: the client's files stay. */
    method ResetClient(id: string, address: Address, duration: uint32)
      requires IdsFit(registry)
      modifies `registry, `entry, `error, `missing
      ensures State() == ResetStep(old(State()), id, address, duration)
      ensures old(State()).Active() && State().Active() ==> Anew(entry.info, address, duration)
    {
      if !started || error || missing {
        return;
      }
      if |id| >= MAXIMUM_CLIENT_ID_LENGTH || entry.clientId != id {
        error := true;
        return;
      }
      for line := 0 to |registry|
        invariant line <= FindId(registry, id)
        invariant State() == old(State()).(entry := entry)
      {
        entry := registry[line];
        if |entry.clientId| < MAXIMUM_CLIENT_ID_LENGTH && entry.clientId == id {
          entry := Entry(id, entry.fileNumber, Info(address, ACTIVE, duration, 0, 0, MQTTSN_PINGREQ));
          registry := registry[line := entry];
          return;
        }
      }
      entry, error, missing := HOLE, true, true;
    }

    // Write-backs of the cached entry

    method WriteEntryBack()
      requires Atoi(entry.fileNumber) <= |registry|
      modifies `registry
      ensures registry == Put(old(registry), Atoi(entry.fileNumber), entry)
    {
      var position := Atoi(entry.fileNumber);
      registry := Put(registry, position, entry);
    }

    /** set_client_await_message. */
    method SetClientAwaitMessage(m: byte)
      requires Inv(State())
      modifies `registry, `entry
      ensures State() == InfoStep(old(State()), InfoOp.SetAwaitMessage(m))
      ensures old(State()).Active() ==> Changed(old(entry.info), InfoOp.SetAwaitMessage(m), entry.info)
    {
      hide DiskInv, Print8, Atoi;
      if !started || error || missing {
        return;
      }
      entry := entry.(info := entry.info.(awaitMessage := m));
      WriteEntryBack();
    }

    /** set_timeout. */
    method SetTimeout(timeout: uint32)
      requires Inv(State())
      modifies `registry, `entry
      ensures State() == InfoStep(old(State()), InfoOp.SetTimeout(timeout))
      ensures old(State()).Active() ==> Changed(old(entry.info), InfoOp.SetTimeout(timeout), entry.info)
    {
      hide DiskInv, Print8, Atoi;
      if !started || error || missing {
        return;
      }
      entry := entry.(info := entry.info.(timeout := timeout));
      WriteEntryBack();
    }

    /** set_client_state. */
    method SetClientState(status: ClientStatus)
      requires Inv(State())
      modifies `registry, `entry
      ensures State() == InfoStep(old(State()), InfoOp.SetStatus(status))
      ensures old(State()).Active() ==> Changed(old(entry.info), InfoOp.SetStatus(status), entry.info)
    {
      hide DiskInv, Print8, Atoi;
      if !started || error || missing {
        return;
      }
      entry := entry.(info := entry.info.(status := status));
      WriteEntryBack();
    }

    /** set_client_await_msg_id. */
    method SetClientAwaitMsgId(id: uint16)
      requires Inv(State())
      modifies `registry, `entry
      ensures State() == InfoStep(old(State()), InfoOp.SetAwaitId(id))
      ensures old(State()).Active() ==> Changed(old(entry.info), InfoOp.SetAwaitId(id), entry.info)
    {
      hide DiskInv, Print8, Atoi;
      if !started || error || missing {
        return;
      }
      entry := entry.(info := entry.info.(awaitId := id));
      WriteEntryBack();
    }

    // The current client's files

    /** add_client_registration. */
    method AddClientRegistration(topic: string) returns (topicId: Option<uint16>)
      requires FilesReady(State()) && FileStepFits(State(), FileOp.Register(topic))
      modifies `regs, `error
      ensures State() == FileStep(old(State()), FileOp.Register(topic))
      ensures topicId == if old(State()).Active() && |topic| <= MAXIMUM_TOPIC_NAME_LENGTH
                         then Some(R.Register(Open(old(regs), entry.fileNumber), topic).1) else None
    {
      hide R.Inv, R.Register, R.Fits, Open, WithFiles;
      if !started || error || missing {
        return None;
      }
      if |topic| > MAXIMUM_TOPIC_NAME_LENGTH {
        SameBack(State());
        error := true;
        return None;
      }
      var file, id := R.AddRegistration(Open(regs, entry.fileNumber), topic);
      OnlyRegs(State(), file);
      regs := regs[entry.fileNumber := file];
      return Some(id);
    }

    /** get_topic_name.  Without a registered client there is no registration file to read. */
    method GetTopicName(topicId: uint16) returns (name: Option<string>)
      requires FilesReady(State())
      ensures var file := Open(regs, entry.fileNumber);
              name == if State().Active() && 1 <= topicId <= |file| then Some(file[topicId - 1].name) else None
    {
      hide R.Inv;
      if !started || error {
        return None;
      }
      if topicId == 0 {
        return None;
      }
      var found, n := R.TopicName(Open(regs, entry.fileNumber), topicId);
      return if found then Some(n) else None;
    }

    /** add_subscription. */
    method AddSubscription(name: string, id: uint16, qos: byte)
      requires FilesReady(State()) && FileStepFits(State(), FileOp.Subscribe(name, id, qos))
      modifies `subs
      ensures State() == FileStep(old(State()), FileOp.Subscribe(name, id, qos))
    {
      hide S.Subscribe, S.Fits, Open, WithFiles;
      if !started || error || missing {
        return;
      }
      var file := S.AddSubscription(Open(subs, entry.fileNumber), name, id, qos);
      OnlySubs(State(), file);
      subs := subs[entry.fileNumber := file];
    }

    /** delete_subscription, which does not look whether the client is registered. */
    method DeleteSubscription(id: uint16)
      requires FilesReady(State())
      modifies `subs, `error
      ensures State() == FileStep(old(State()), FileOp.Unsubscribe(id))
    {
      hide S.Unsubscribe, WithFiles;
      if !started || error {
        return;
      }
      var file, notFound := S.DeleteSubscription(Open(subs, entry.fileNumber), id);
      if entry.fileNumber in subs {
        OnlySubs(State(), file);
        subs := subs[entry.fileNumber := file];
      }
      error := notFound;
    }

    /** set_client_willtopic. */
    method SetClientWillTopic(topic: string, qos: byte, retain: bool)
      requires FilesReady(State())
      modifies `wills
      ensures State() == FileStep(old(State()), FileOp.SetWillTopic(topic, qos, retain))
    {
      hide Open, WithFiles;
      if !started || error || missing {
        return;
      }
      if |topic| >= MAXIMUM_TOPIC_NAME_LENGTH {
        SameBack(State());
        return;
      }
      var will := ReadWill();
      will := will.(topic := topic, qos := qos, retain := retain);
      OnlyWills(State(), Put(Open(wills, entry.fileNumber), 0, will));
      wills := wills[entry.fileNumber := Put(Open(wills, entry.fileNumber), 0, will)];
    }

    /** The will as it is read into a zeroed record. */
    method ReadWill() returns (will: Will)
      ensures will == OldWill(Open(wills, entry.fileNumber))
    {
      var file := Open(wills, entry.fileNumber);
      return if |file| > 0 then file[0] else Will("", [], 0, false);
    }

    /** set_client_willmessage. */
    method SetClientWillMessage(msg: seq<byte>)
      requires FilesReady(State()) && |msg| <= 0xFF
      modifies `wills
      ensures State() == FileStep(old(State()), FileOp.SetWillMessage(msg))
    {
      hide Open, WithFiles;
      if !started || error || missing {
        return;
      }
      var will := ReadWill();
      will := will.(msg := msg);
      OnlyWills(State(), Put(Open(wills, entry.fileNumber), 0, will));
      wills := wills[entry.fileNumber := Put(Open(wills, entry.fileNumber), 0, will)];
    }

    /** delete_will: the file is removed and created again. */
    method DeleteWill()
      requires FilesReady(State())
      modifies `wills
      ensures State() == FileStep(old(State()), FileOp.DeleteWill)
    {
      hide Open, WithFiles;
      if !started || error || missing {
        return;
      }
      var n := entry.fileNumber;
      wills := wills - {n};
      wills := Touch(wills, n);
      OnlyWills(old(State()), []);
      assert wills == old(wills)[n := []];
    }

    /** has_client_will. */
    method HasClientWill() returns (has: bool)
      ensures has <==> State().Active() && OldWill(Open(wills, entry.fileNumber)).topic != ""
    {
      if !started || error || missing {
        return false;
      }
      var file := Open(wills, entry.fileNumber);
      return |file| > 0 && file[0].topic != "";
    }

    /** add_client_publish. */
    method AddClientPublish(payload: P.Payload, dup: bool, msgId: uint16)
      requires FilesReady(State()) && FileStepFits(State(), FileOp.AddPublish(payload))
      modifies `pubs
      ensures State() == FileStep(old(State()), FileOp.AddPublish(payload))
    {
      hide P.Add, P.Fits, Open, WithFiles;
      if !started || error || missing {
        return;
      }
      var file := P.AddPublish(Open(pubs, entry.fileNumber), payload, dup, msgId);
      OnlyPubs(State(), file);
      pubs := pubs[entry.fileNumber := file];
    }

    /** get_next_publish; publish id 0 stands for none. */
    method GetNextPublish() returns (next: P.Publish)
      requires FilesReady(State())
      ensures !State().Active() ==> next.publishId == 0
      ensures State().Active() ==>
                var file := Open(pubs, entry.fileNumber);
                && (next.publishId == 0 <==> P.Live(file) == multiset{})
                && (next.publishId != 0 ==> next.publishId <= |file| && file[next.publishId - 1] == next)
    {
      hide P.Inv, P.Live, Open;
      if !started || error || missing {
        return P.HOLE;
      }
      next := P.NextPublish(Open(pubs, entry.fileNumber));
    }

    /** set_publish_msg_id. */
    method SetPublishMsgId(publishId: uint16, msgId: uint16)
      requires FilesReady(State()) && publishId != 0
      modifies `pubs, `error
      ensures State() == FileStep(old(State()), FileOp.SetPublishMsgId(publishId, msgId))
    {
      hide P.SetMsgId, P.SeekTo, Open, WithFiles;
      if !started || error || missing {
        return;
      }
      var file, mismatch := P.SetPublishMsgId(Open(pubs, entry.fileNumber), publishId, msgId);
      OnlyPubs(State(), file);
      pubs := pubs[entry.fileNumber := file];
      error := mismatch;
    }

    /** remove_publish_by_publish_id. */
    method RemovePublishByPublishId(publishId: uint16)
      requires FilesReady(State()) && publishId != 0
      modifies `pubs, `error
      ensures State() == FileStep(old(State()), FileOp.RemovePublish(publishId))
    {
      hide P.Remove, P.SeekTo, Open, WithFiles;
      if !started || error || missing {
        return;
      }
      var file, mismatch := P.RemovePublish(Open(pubs, entry.fileNumber), publishId);
      OnlyPubs(State(), file);
      pubs := pubs[entry.fileNumber := file];
      error := mismatch;
    }

    // The counts over all clients, in or out of a transaction

    /** increment_global_subscription_count. */
    method IncrementGlobalSubscriptionCount(name: string) returns (ok: bool)
      requires |topicCounts| <= 0xFFFF && G.Fits(topicCounts, name)
      modifies `topicCounts
      ensures topicCounts == if error then old(topicCounts) else G.Increment(old(topicCounts), name)
      ensures ok <==> !error && G.Countable(name)
    {
      if error {
        return false;
      }
      topicCounts, ok := G.IncrementCount(topicCounts, name);
    }

    /** decrement_global_subscription_count. */
    method DecrementGlobalSubscriptionCount(name: string) returns (ok: bool)
      modifies `topicCounts
      ensures topicCounts == if error then old(topicCounts) else G.Decrement(old(topicCounts), name)
      ensures ok <==> !error && G.Countable(name)
    {
      if error {
        return false;
      }
      topicCounts, ok := G.DecrementCount(topicCounts, name);
    }

    /** get_global_topic_subscription_count. */
    method GetGlobalTopicSubscriptionCount(name: string) returns (n: uint32)
      ensures n == if error then 0 else G.Count(topicCounts, name)
    {
      if error {
        return 0;
      }
      n := G.QueryCount(topicCounts, name);
    }
  }

  // Writing one of the four files leaves the other three

  lemma SameBack(s: Store)
    requires AllThere(s)
    ensures WithFiles(s.sd, s.entry.fileNumber, FilesOf(s.sd, s.entry.fileNumber)) == s.sd
  {
    var d := WithFiles(s.sd, s.entry.fileNumber, FilesOf(s.sd, s.entry.fileNumber));
    assert d.regs == s.sd.regs && d.subs == s.sd.subs && d.wills == s.sd.wills && d.pubs == s.sd.pubs;
  }

  lemma OnlyRegs(s: Store, file: seq<R.Registration>)
    requires AllThere(s)
    ensures var n := s.entry.fileNumber;
            WithFiles(s.sd, n, FilesOf(s.sd, n).(regs := file)) == s.sd.(regs := s.sd.regs[n := file])
  {
  }

  lemma OnlySubs(s: Store, file: seq<S.Subscription>)
    requires AllThere(s)
    ensures var n := s.entry.fileNumber;
            WithFiles(s.sd, n, FilesOf(s.sd, n).(subs := file)) == s.sd.(subs := s.sd.subs[n := file])
  {
  }

  lemma OnlyWills(s: Store, file: seq<Will>)
    requires AllThere(s)
    ensures var n := s.entry.fileNumber;
            WithFiles(s.sd, n, FilesOf(s.sd, n).(wills := file)) == s.sd.(wills := s.sd.wills[n := file])
  {
  }

  lemma OnlyPubs(s: Store, file: seq<P.Publish>)
    requires AllThere(s)
    ensures var n := s.entry.fileNumber;
            WithFiles(s.sd, n, FilesOf(s.sd, n).(pubs := file)) == s.sd.(pubs := s.sd.pubs[n := file])
  {
  }
}
