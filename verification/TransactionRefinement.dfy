/** Every run of client transactions on the slot files is a run on a plain map of clients. */
module TransactionRefinement {
  import opened Basics
  import opened SlotFile
  import opened ClientStore
  import opened ClientSimulation
  import R = Registrations
  import S = Subscriptions
  import P = PublishQueue

  // The plain map

  /** What each operation means for a map of clients. */
  ghost predicate Next(a: Clients, op: Op, b: Clients) {
    match op
    case Begin => b == Clients(a.byId, None, a.error, false)
    case StartById(id) =>
      if a.started || |id| >= MAXIMUM_CLIENT_ID_LENGTH then b == a.(error := true)
      else b == Clients(a.byId, if id in a.byId then Some(id) else None, false, true)
    case StartByAddress(address) =>
      if a.started then b == a.(error := true)
      else
        && b.byId == a.byId && b.started && !b.error
        && (b.current.Some? ==>
              b.current.value in a.byId && a.byId[b.current.value].info.address == address)
        && (b.current.None? ==> forall id <- a.byId :: a.byId[id].info.address != address)
    case Apply => b == Clients(a.byId, None, false, false)
    case AddClient(id, address, duration) =>
      if !a.started || a.error then b == a
      else if a.current.Some? || |id| >= MAXIMUM_CLIENT_ID_LENGTH then b == a.(error := true)
      else
        && id !in a.byId && id in b.byId && Anew(b.byId[id].info, address, duration)
        && b == a.(byId := a.byId[id := Client(b.byId[id].info, NO_FILES)], current := Some(id))
    case DeleteClient(id) =>
      if !a.Active() then b == a
      else if |id| >= MAXIMUM_CLIENT_ID_LENGTH || Subscribed(a.byId[a.current.value]) then b == a.(error := true)
      else b == a.(byId := a.byId - {a.current.value}, current := None)
    case ResetClient(id, address, duration) =>
      if !a.Active() then b == a
      else if |id| >= MAXIMUM_CLIENT_ID_LENGTH || a.current != Some(id) then b == a.(error := true)
      else
        && id in b.byId && Anew(b.byId[id].info, address, duration)
        && b == a.(byId := a.byId[id := a.byId[id].(info := b.byId[id].info)])
    case ChangeInfo(info) =>
      if !a.Active() then b == a
      else
        var id := a.current.value;
        && id in b.byId && Changed(a.byId[id].info, info, b.byId[id].info)
        && b == a.(byId := a.byId[id := a.byId[id].(info := b.byId[id].info)])
    case ChangeFiles(files) =>
      if a.Active() then
        var c := a.byId[a.current.value];
        && Fits(c.files, files)
        && var r := OnFiles(c.files, files);
           b == a.(byId := a.byId[a.current.value := c.(files := r.0)], error := r.1)
      else b == if files.Unsubscribe? && a.started && !a.error then a.(error := files.id != 0) else a
  }

  ghost predicate Subscribed(c: Client) {
    exists s <- c.files.subs :: s.topicId != 0
  }

  // When the files follow

  /** What a caller has to see to: no start with an empty id, or with the address of an empty slot, while there is an
      empty slot; adding a client only under a new, non-empty id and while fewer than 65536 slots are taken; deleting
      the client the transaction is about. */
  predicate Disciplined(s: Store, op: Op) {
    match op
    case StartById(id) => !s.started && id == "" ==> FindId(s.sd.registry, "") == |s.sd.registry|
    case StartByAddress(address) =>
      var k := FindAddress(s.sd.registry, address);
      !s.started && k < |s.sd.registry| ==> s.sd.registry[k].clientId != ""
    case AddClient(id, _, _) =>
      s.started && !s.error && s.missing && |id| < MAXIMUM_CLIENT_ID_LENGTH ==>
        id != "" && FindId(s.sd.registry, id) == |s.sd.registry| && FindId(s.sd.registry, "") < SLOTS
    case DeleteClient(id) =>
      s.Active() && |id| < MAXIMUM_CLIENT_ID_LENGTH && S.LiveCount(Open(s.sd.subs, s.entry.fileNumber)) == 0 ==>
        id == s.entry.clientId
    case _ => true
  }

  ghost predicate Follows(s: Store, op: Op, t: Store) {
    Inv(t) && Next(Abstract(s), op, Abstract(t))
  }

  /** An active transaction's client, in the files and in the map. */
  lemma Current(s: Store)
    requires Inv(s) && s.started && !s.missing
    ensures var i := Atoi(s.entry.fileNumber);
            && i < |s.sd.registry| && s.sd.registry[i] == s.entry && s.entry.clientId != ""
            && FindId(s.sd.registry, s.entry.clientId) == i && Owned(s.sd.registry, s.entry.fileNumber)
            && FilesInv(FilesOf(s.sd, s.entry.fileNumber))
    ensures var a := Abstract(s);
            && a.current == Some(s.entry.clientId) && s.entry.clientId in a.byId
            && a.byId[s.entry.clientId] == Client(s.entry.info, FilesOf(s.sd, s.entry.fileNumber))
  {
    hide RegistryInv, FilesInv, FilesMatch, ById, Print8;
    SlotOf(s.sd.registry, Atoi(s.entry.fileNumber));
    ViewOfMap(s.sd, s.entry.clientId);
  }

  lemma StartFollows(s: Store, k: nat)
    requires Inv(s) && k <= |s.sd.registry|
    ensures Inv(StartAt(s, k)) <==> (k < |s.sd.registry| ==> s.sd.registry[k].clientId != "")
  {
    hide FilesInv, FilesMatch, Print8;
    if k < |s.sd.registry| && s.sd.registry[k].clientId != "" {
      SlotOf(s.sd.registry, k);
    }
  }

  lemma StartByIdFollows(s: Store, id: string)
    requires Inv(s)
    ensures Follows(s, StartById(id), StartIdStep(s, id)) <==> Disciplined(s, StartById(id))
  {
    hide DiskInv, ById, Print8;
    if !s.started && |id| < MAXIMUM_CLIENT_ID_LENGTH {
      StartFollows(s, FindId(s.sd.registry, id));
      ViewOfMap(s.sd, id);
    }
  }

  lemma StartByAddressFollows(s: Store, address: Address)
    requires Inv(s)
    ensures Follows(s, StartByAddress(address), StartAddressStep(s, address)) <==>
            Disciplined(s, StartByAddress(address))
  {
    hide FilesMatch, FilesInv, ById, Print8, RegistryInv;
    var k, a := FindAddress(s.sd.registry, address), Abstract(s);
    if !s.started {
      StartFollows(s, k);
      if k == |s.sd.registry| {
        forall id <- a.byId
          ensures a.byId[id].info.address != address
        {
          ViewOfMap(s.sd, id);
        }
      } else if s.sd.registry[k].clientId != "" {
        SlotOf(s.sd.registry, k);
        ViewOfMap(s.sd, s.sd.registry[k].clientId);
      }
    }
  }

  lemma AddFollows(s: Store, id: string, address: Address, duration: uint32)
    requires Inv(s)
    ensures var op := AddClient(id, address, duration);
            Follows(s, op, AddStep(s, id, address, duration)) <==> Disciplined(s, op)
  {
    hide DiskInv, ById, Print8, Atoi;
    if s.started && !s.error && s.missing && |id| < MAXIMUM_CLIENT_ID_LENGTH {
      if Disciplined(s, AddClient(id, address, duration)) {
        AddNew(s, id, address, duration);
      } else {
        AddAgainstRules(s, id, address, duration);
      }
    }
  }

  lemma AddNew(s: Store, id: string, address: Address, duration: uint32)
    requires Inv(s) && Disciplined(s, AddClient(id, address, duration))
    requires s.started && !s.error && s.missing && |id| < MAXIMUM_CLIENT_ID_LENGTH
    ensures Follows(s, AddClient(id, address, duration), AddStep(s, id, address, duration))
  {
    hide RegistryInv, FilesMatch, FilesInv, ById, Print8, Atoi;
    var i := FindId(s.sd.registry, "");
    Small(i, SLOTS);
    var e := Entry(id, Print8(i), NewInfo(address, duration));
    Added(s.sd, i, e);
    FileNumber(i);
    ViewOfMap(s.sd, id);
    assert Put(s.sd.registry, i, e)[i] == e;
  }

  lemma Small(n: nat, m: nat)
    requires n < m
    ensures n % m == n
  {
  }

  /** Adding against the rules.  An empty id leaves a slot without a client id that is not all zero; an id that is there
      already is no new client; and with all slots taken the slot number wraps round and the client in slot 0 is
      lost, its files going to the new one. */
  lemma AddAgainstRules(s: Store, id: string, address: Address, duration: uint32)
    requires Inv(s) && !Disciplined(s, AddClient(id, address, duration))
    ensures var t := AddStep(s, id, address, duration);
            && !Follows(s, AddClient(id, address, duration), t)
            && (if id == "" then
                  exists i :: 0 <= i < |t.sd.registry| && t.sd.registry[i].clientId == "" && t.sd.registry[i] != HOLE
                else if id in ById(s.sd) then true
                else
                  && |s.sd.registry| == SLOTS
                  && s.sd.registry[0].clientId in ById(s.sd) && s.sd.registry[0].clientId !in ById(t.sd)
                  && FilesOf(t.sd, t.entry.fileNumber) == FilesOf(s.sd, s.sd.registry[0].fileNumber))
  {
    hide FilesMatch, FilesInv, ById, Print8, Atoi;
    var reg, t := s.sd.registry, AddStep(s, id, address, duration);
    var k := EmptySlot(reg);
    assert t.sd.registry[k] == t.entry && t.entry.fileNumber == Print8(k);
    if id == "" {
      assert t.sd.registry[k] != HOLE;
    } else if FindId(reg, id) < |reg| {
      ViewOfMap(s.sd, id);
    } else {
      assert FindId(reg, "") == |reg| == SLOTS && k == 0;
      var lost := reg[0].clientId;
      SlotOf(reg, 0);
      UniqueId(reg, 0);
      ViewOfMap(s.sd, lost);
      ViewOfMap(t.sd, lost);
      assert forall j :: 0 <= j < |reg| ==> t.sd.registry[j].clientId != lost;
      TouchKeepsFiles(s.sd, k, t.entry, reg[0].fileNumber);
    }
  }

  lemma TouchKeepsFiles(d: Disk, k: nat, e: Entry, n: string)
    requires k <= |d.registry|
    ensures FilesOf(AddedTo(d, k, e), n) == FilesOf(d, n)
  {
  }

  lemma DeleteFollows(s: Store, id: string)
    requires Inv(s)
    ensures Follows(s, DeleteClient(id), DeleteStep(s, id)) <==> Disciplined(s, DeleteClient(id))
  {
    hide RegistryInv, FilesMatch, FilesInv, ById, Print8, Atoi;
    if s.Active() {
      Current(s);
      var n, i := s.entry.fileNumber, Atoi(s.entry.fileNumber);
      if |id| < MAXIMUM_CLIENT_ID_LENGTH && S.LiveCount(Open(s.sd.subs, n)) == 0 {
        if id == s.entry.clientId {
          Deleted(s.sd, i);
        } else {
          DeleteOther(s.sd, i, FindId(s.sd.registry, id));
        }
      }
    }
  }

  /** Deleting under another id takes the four files of a client that stays in the registry. */
  lemma DeleteOther(d: Disk, i: nat, k: nat)
    requires DiskInv(d) && i < |d.registry| && d.registry[i].clientId != "" && k <= |d.registry| && k != i
    ensures var n := d.registry[i].fileNumber;
            var e := DeletedFrom(d, n, k);
            && !DiskInv(e) && e.registry[i] == d.registry[i]
            && n in d.regs && n in d.subs && n in d.wills && n in d.pubs
            && n !in e.regs && n !in e.subs && n !in e.wills && n !in e.pubs
  {
    hide FilesInv, Print8;
    var n := d.registry[i].fileNumber;
    SlotOf(d.registry, i);
    var e := DeletedFrom(d, n, k);
    assert Owned(e.registry, n) && n !in e.regs;
  }

  lemma ResetFollows(s: Store, id: string, address: Address, duration: uint32)
    requires Inv(s)
    ensures Follows(s, ResetClient(id, address, duration), ResetStep(s, id, address, duration))
  {
    hide DiskInv, ById, Print8, Atoi;
    if s.Active() {
      Current(s);
      if id == s.entry.clientId {
        WriteBack(s, NewInfo(address, duration));
      }
    }
  }

  /** The cached entry with new contents is written back to its own slot. */
  lemma WriteBack(s: Store, info: Info)
    requires Inv(s) && s.started && !s.missing
    ensures var i, e := Atoi(s.entry.fileNumber), s.entry.(info := info);
            && i < |s.sd.registry| && s.sd.registry[i] == s.entry
            && var t := s.(sd := s.sd.(registry := s.sd.registry[i := e]), entry := e);
               && Inv(t)
               && ById(t.sd) == ById(s.sd)[e.clientId := Client(info, FilesOf(s.sd, e.fileNumber))]
  {
    hide RegistryInv, FilesMatch, FilesInv, ById, Print8, Atoi;
    Current(s);
    Rewritten(s.sd, Atoi(s.entry.fileNumber), info);
  }

  lemma InfoFollows(s: Store, op: InfoOp)
    requires Inv(s)
    ensures Follows(s, ChangeInfo(op), InfoStep(s, op))
  {
    hide DiskInv, ById, Print8, Atoi;
    if s.Active() {
      Current(s);
      WriteBack(s, OnInfo(s.entry.info, op));
    }
  }

  lemma FilesFollow(s: Store, op: FileOp)
    requires Inv(s) && FileStepFits(s, op)
    ensures Follows(s, ChangeFiles(op), FileStep(s, op))
  {
    hide RegistryInv, FilesMatch, FilesInv, ById, Print8, Atoi, OnFiles, Fits;
    if s.Active() {
      Current(s);
      var f := FilesOf(s.sd, s.entry.fileNumber);
      OnFilesKeepsInv(f, op);
      FilesChanged(s.sd, Atoi(s.entry.fileNumber), OnFiles(f, op).0);
    }
  }

  lemma OnFilesKeepsInv(f: Files, op: FileOp)
    requires FilesInv(f) && Fits(f, op)
    ensures FilesInv(OnFiles(f, op).0)
  {
    hide R.Inv, S.Inv, P.Inv, R.Register, S.Subscribe, S.Unsubscribe, P.Add, P.Remove, P.SetMsgId, R.Fits, S.Fits,
         P.Fits;
    match op
    case Register(topic) =>
      if |topic| <= MAXIMUM_TOPIC_NAME_LENGTH {
        R.RegisterKeepsInv(f.regs, topic);
      }
    case Subscribe(name, id, qos) =>
      S.SubscribeSets(f.subs, name, id, qos, name, id);
    case Unsubscribe(id) =>
      S.UnsubscribeClears(f.subs, id, "", id);
    case AddPublish(payload) =>
      P.AddConserves(f.pubs, payload);
    case SetPublishMsgId(publishId, msgId) =>
      P.SetMsgIdConserves(f.pubs, publishId, msgId);
    case RemovePublish(publishId) =>
      P.RemoveConserves(f.pubs, publishId);
    case _ =>
  }

  /** A step keeps the invariant and is a step of the plain map exactly when the caller keeps to the rules. */
  lemma StepFollows(s: Store, op: Op)
    requires Inv(s) && StepFits(s, op)
    ensures Follows(s, op, Step(s, op)) <==> Disciplined(s, op)
  {
    hide Inv, Follows;
    match op
    case Begin => BeginFollows(s);
    case StartById(id) => StartByIdFollows(s, id);
    case StartByAddress(address) => StartByAddressFollows(s, address);
    case Apply => ApplyFollows(s);
    case AddClient(id, address, duration) => AddFollows(s, id, address, duration);
    case DeleteClient(id) => DeleteFollows(s, id);
    case ResetClient(id, address, duration) =>
      ResetFollows(s, id, address, duration);
    case ChangeInfo(info) => InfoFollows(s, info);
    case ChangeFiles(files) => FilesFollow(s, files);
  }

  lemma ApplyFollows(s: Store)
    requires Inv(s)
    ensures Follows(s, Apply, ApplyStep(s))
  {
  }

  lemma BeginFollows(s: Store)
    requires Inv(s)
    ensures Follows(s, Begin, BeginStep(s))
  {
  }

  // Runs

  /** The caller keeps the rules at every step, and the numbers and fields are wide enough. */
  predicate Obeys(s: Store, ops: seq<Op>)
    decreases |ops|
  {
    ops == [] || (StepFits(s, ops[0]) && Disciplined(s, ops[0]) && Obeys(Step(s, ops[0]), ops[1..]))
  }

  function Run(s: Store, ops: seq<Op>): Store
    requires Obeys(s, ops)
    decreases |ops|
  {
    if ops == [] then s else Run(Step(s, ops[0]), ops[1..])
  }

  ghost predicate MapRun(a: Clients, ops: seq<Op>, b: Clients)
    decreases |ops|
  {
    if ops == [] then a == b else exists m :: Next(a, ops[0], m) && MapRun(m, ops[1..], b)
  }

  const EMPTY_STORE := Store(Disk([], map[], map[], map[], map[]), HOLE, false, false, false)

  lemma EmptyStoreIsEmptyMap()
    ensures Inv(EMPTY_STORE) && Abstract(EMPTY_STORE) == Clients(map[], None, false, false)
  {
  }

  /** Forward simulation over whole runs. */
  lemma {:induction false} RunFollows(s: Store, ops: seq<Op>)
    requires Inv(s) && Obeys(s, ops)
    ensures Inv(Run(s, ops)) && MapRun(Abstract(s), ops, Abstract(Run(s, ops)))
    decreases |ops|
  {
    hide Inv, Next, Step, Disciplined, Abstract;
    if ops != [] {
      var t := Step(s, ops[0]);
      StepFollows(s, ops[0]);
      RunFollows(t, ops[1..]);
      assert Next(Abstract(s), ops[0], Abstract(t)) && MapRun(Abstract(t), ops[1..], Abstract(Run(t, ops[1..])));
    }
  }

  /** In every reachable store a free slot has none of its four files, so a client added in a slot that was in use
      before starts with no registrations, subscriptions, will or publishes, though nothing is truncated. */
  lemma NoStateLeaks(ops: seq<Op>, slot: nat, id: string, address: Address, duration: uint32)
    requires Obeys(EMPTY_STORE, ops) && slot < SLOTS
    ensures var s := Run(EMPTY_STORE, ops);
            && (slot >= |s.sd.registry| || s.sd.registry[slot].clientId == "" ==>
                  FilesOf(s.sd, Print8(slot)) == NO_FILES)
            && (s.started && !s.error && s.missing && |id| < MAXIMUM_CLIENT_ID_LENGTH
                && Disciplined(s, AddClient(id, address, duration)) ==>
                  var t := AddStep(s, id, address, duration);
                  t.Active() && View(t.sd, id) == Some(Client(NewInfo(address, duration), NO_FILES)))
  {
    hide Inv, ById, View, RegistryInv, FilesMatch, FilesInv, Print8, Disciplined, AddStep;
    EmptyStoreIsEmptyMap();
    RunFollows(EMPTY_STORE, ops);
    var s := Run(EMPTY_STORE, ops);
    InvHasDisk(s);
    if slot >= |s.sd.registry| || s.sd.registry[slot].clientId == "" {
      FreeSlotHasNoFiles(s.sd, slot);
    }
    if s.started && !s.error && s.missing && |id| < MAXIMUM_CLIENT_ID_LENGTH
       && Disciplined(s, AddClient(id, address, duration)) {
      AddNew(s, id, address, duration);
      var t := AddStep(s, id, address, duration);
      ViewOfMap(t.sd, id);
      AddIsActive(s, id, address, duration);
    }
  }

  lemma InvHasDisk(s: Store)
    requires Inv(s)
    ensures DiskInv(s.sd)
  {
  }

  lemma AddIsActive(s: Store, id: string, address: Address, duration: uint32)
    requires s.started && !s.error && s.missing && |id| < MAXIMUM_CLIENT_ID_LENGTH
    ensures AddStep(s, id, address, duration).Active()
  {
  }

  // Topic ids over runs

  /** No operation changes what a topic id of a client stands for, short of deleting the client. */
  lemma StepKeepsTopics(a: Clients, op: Op, b: Clients, id: string)
    requires Next(a, op, b) && id in a.byId && id in b.byId
    ensures a.byId[id].files.regs <= b.byId[id].files.regs
  {
    hide S.Subscribe, S.Unsubscribe, P.Add, P.Remove, P.SetMsgId, R.Register;
  }

  ghost predicate Stays(s: Store, ops: seq<Op>, id: string)
    requires Obeys(s, ops)
    decreases |ops|
  {
    id in ById(s.sd) && (ops != [] ==> Stays(Step(s, ops[0]), ops[1..], id))
  }

  lemma {:induction false} RunKeepsTopics(s: Store, ops: seq<Op>, id: string)
    requires Inv(s) && Obeys(s, ops) && Stays(s, ops, id)
    ensures id in ById(Run(s, ops).sd)
    ensures ById(s.sd)[id].files.regs <= ById(Run(s, ops).sd)[id].files.regs
    decreases |ops|
  {
    hide Inv, Next, Step, Disciplined, ById;
    if ops != [] {
      var t := Step(s, ops[0]);
      StepFollows(s, ops[0]);
      RunKeepsTopics(t, ops[1..], id);
      assert id in ById(t.sd);
      StepKeepsTopics(Abstract(s), ops[0], Abstract(t), id);
    }
  }
}
