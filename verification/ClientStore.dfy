/** The client registry and the files of each client on the SD card, the cached entry and the transaction flags of
    LinuxPersistent, as one value, and its operations as functions on it (LinuxPersistent.cpp, LinuxPersistent.h). */
module ClientStore {
  import opened Basics
  import opened SlotFile
  import R = Registrations
  import S = Subscriptions
  import P = PublishQueue

  const MAXIMUM_CLIENT_ID_LENGTH := 24
  const MQTTSN_PINGREQ: byte := 0x16

  /** Registry slots are numbered with 16 bits. */
  const SLOTS := 0x1_0000

  datatype ClientStatus = EMPTY | ACTIVE | LOST | Other(code: nat)

  type Address = a: seq<byte> | |a| == 6 witness [0, 0, 0, 0, 0, 0]

  const ZERO_ADDRESS: Address := [0, 0, 0, 0, 0, 0]

  datatype Info = Info(address: Address, status: ClientStatus, duration: uint32, timeout: uint32, awaitId: uint16,
                       awaitMessage: byte)

  datatype Entry = Entry(clientId: string, fileNumber: string, info: Info)

  const HOLE := Entry("", "", Info(ZERO_ADDRESS, EMPTY, 0, 0, 0, 0))

  datatype Will = Will(topic: string, msg: seq<byte>, qos: byte, retain: bool)

  datatype Disk = Disk(registry: seq<Entry>, regs: map<string, seq<R.Registration>>,
                       subs: map<string, seq<S.Subscription>>, wills: map<string, seq<Will>>,
                       pubs: map<string, seq<P.Publish>>)

  /** The contents of the four files of one client. */
  datatype Files = Files(regs: seq<R.Registration>, subs: seq<S.Subscription>, wills: seq<Will>, pubs: seq<P.Publish>)

  const NO_FILES := Files([], [], [], [])

  datatype Store = Store(sd: Disk, entry: Entry, error: bool, started: bool, missing: bool) {
    /** The guard of every operation on the current client. */
    predicate Active() {
      started && !error && !missing
    }
  }

  function FilesOf(d: Disk, n: string): Files {
    Files(Open(d.regs, n), Open(d.subs, n), Open(d.wills, n), Open(d.pubs, n))
  }

  function WithFiles(d: Disk, n: string, f: Files): Disk {
    d.(regs := d.regs[n := f.regs], subs := d.subs[n := f.subs], wills := d.wills[n := f.wills],
       pubs := d.pubs[n := f.pubs])
  }

  // The scans of the registry

  function FindId(reg: seq<Entry>, id: string): (i: nat)
    ensures i <= |reg|
    ensures i < |reg| ==> reg[i].clientId == id
    ensures forall j :: 0 <= j < i ==> reg[j].clientId != id
  {
    if reg == [] || reg[0].clientId == id then 0
    else
      var i := 1 + FindId(reg[1..], id);
      assert forall j :: 0 < j < i ==> reg[j] == reg[1..][j - 1];
      i
  }

  function FindAddress(reg: seq<Entry>, address: Address): (i: nat)
    ensures i <= |reg|
    ensures i < |reg| ==> reg[i].info.address == address
    ensures forall j :: 0 <= j < i ==> reg[j].info.address != address
  {
    if reg == [] || reg[0].info.address == address then 0
    else
      var i := 1 + FindAddress(reg[1..], address);
      assert forall j :: 0 < j < i ==> reg[j] == reg[1..][j - 1];
      i
  }

  /** find_empty_entry_space_in_registry: the first slot without a client id, or the end, in a 16-bit counter. */
  function EmptySlot(reg: seq<Entry>): nat {
    FindId(reg, "") % SLOTS
  }

  // What the files hold

  ghost predicate FilesInv(f: Files) {
    R.Inv(f.regs) && S.Inv(f.subs) && |f.wills| <= 1 && P.Inv(f.pubs)
  }

  /** The file number belongs to an occupied slot. */
  predicate Owned(reg: seq<Entry>, n: string) {
    var i := Atoi(n);
    i < |reg| && Print8(i) == n && reg[i].clientId != ""
  }

  ghost predicate RegistryInv(reg: seq<Entry>) {
    && |reg| <= SLOTS
    && (forall i :: 0 <= i < |reg| && reg[i].clientId == "" ==> reg[i] == HOLE)
    && (forall i :: 0 <= i < |reg| && reg[i].clientId != "" ==>
          |reg[i].clientId| < MAXIMUM_CLIENT_ID_LENGTH && reg[i].fileNumber == Print8(i))
    && (forall i, j :: 0 <= i < j < |reg| && reg[i].clientId != "" ==> reg[i].clientId != reg[j].clientId)
  }

  /** Exactly the occupied slots have their four files. */
  ghost predicate FilesMatch(d: Disk) {
    && Match(d.registry, d.regs)
    && Match(d.registry, d.subs)
    && Match(d.registry, d.wills)
    && Match(d.registry, d.pubs)
  }

  ghost predicate Match<T>(reg: seq<Entry>, files: map<string, T>) {
    forall n :: n in files <==> Owned(reg, n)
  }

  ghost predicate DiskInv(d: Disk) {
    && RegistryInv(d.registry)
    && FilesMatch(d)
    && (forall n :: Owned(d.registry, n) ==> FilesInv(FilesOf(d, n)))
  }

  /** During a transaction the cached entry is the current client's slot, or empty when there is no such client. */
  ghost predicate Inv(s: Store) {
    && DiskInv(s.sd)
    && (s.started && !s.missing ==> CachedSlot(s))
    && (s.started && s.missing ==> s.entry == HOLE)
  }

  predicate CachedSlot(s: Store) {
    var i := Atoi(s.entry.fileNumber);
    i < |s.sd.registry| && s.sd.registry[i] == s.entry && s.entry.clientId != ""
  }

  // Operations

  datatype InfoOp = SetAwaitMessage(m: byte) | SetTimeout(timeout: uint32) | SetStatus(status: ClientStatus)
    | SetAwaitId(id: uint16)

  datatype FileOp = Register(topic: string) | Subscribe(name: string, id: uint16, qos: byte) | Unsubscribe(id: uint16)
    | SetWillTopic(topic: string, qos: byte, retain: bool) | SetWillMessage(msg: seq<byte>) | DeleteWill
    | AddPublish(payload: P.Payload) | SetPublishMsgId(publishId: uint16, msgId: uint16)
    | RemovePublish(publishId: uint16)

  datatype Op = Begin | StartById(id: string) | StartByAddress(address: Address) | Apply
    | AddClient(id: string, address: Address, duration: uint32) | DeleteClient(id: string)
    | ResetClient(id: string, address: Address, duration: uint32)
    | ChangeInfo(info: InfoOp) | ChangeFiles(files: FileOp)

  function NewInfo(address: Address, duration: uint32): Info {
    Info(address, ACTIVE, duration, 0, 0, MQTTSN_PINGREQ)
  }

  function OnInfo(info: Info, op: InfoOp): Info {
    match op
    case SetAwaitMessage(m) => info.(awaitMessage := m)
    case SetTimeout(timeout) => info.(timeout := timeout)
    case SetStatus(status) => info.(status := status)
    case SetAwaitId(id) => info.(awaitId := id)
  }

  /** The settings of a client that was just added or reset: active, with the duration it asked for, and waiting for a
      PINGREQ (0x16). */
  predicate Anew(i: Info, address: Address, duration: uint32) {
    && i.address == address && i.status == ACTIVE && i.duration == duration
    && i.timeout == 0 && i.awaitId == 0 && i.awaitMessage == 0x16
  }

  /** A write-back changes the field it is about, to the value it was given, and no other. */
  predicate Changed(i: Info, op: InfoOp, j: Info) {
    && j.address == i.address && j.duration == i.duration
    && j.awaitMessage == (if op.SetAwaitMessage? then op.m else i.awaitMessage)
    && j.timeout == (if op.SetTimeout? then op.timeout else i.timeout)
    && j.status == (if op.SetStatus? then op.status else i.status)
    && j.awaitId == (if op.SetAwaitId? then op.id else i.awaitId)
  }

  /** What the operation does not say is left as it is in the file, or zero. */
  function OldWill(wills: seq<Will>): Will {
    if wills == [] then Will("", [], 0, false) else wills[0]
  }

  /** The 16-bit slot numbers and the 255-byte fields are wide enough for the operation. */
  predicate Fits(f: Files, op: FileOp) {
    match op
    case Register(topic) => |topic| > MAXIMUM_TOPIC_NAME_LENGTH || R.Fits(f.regs, topic)
    case Subscribe(name, id, qos) => S.Fits(f.subs, name, id)
    case SetWillMessage(msg) => |msg| <= 0xFF
    case AddPublish(payload) => |payload.msg| <= 0xFF && P.Fits(f.pubs)
    case SetPublishMsgId(publishId, _) => publishId != 0
    case RemovePublish(publishId) => publishId != 0
    case _ => true
  }

  /** The files after an operation on the current client, and whether it sets the error flag. */
  function OnFiles(f: Files, op: FileOp): (Files, bool)
    requires Fits(f, op)
  {
    match op
    case Register(topic) =>
      if |topic| > MAXIMUM_TOPIC_NAME_LENGTH then (f, true) else (f.(regs := R.Register(f.regs, topic).0), false)
    case Subscribe(name, id, qos) => (f.(subs := S.Subscribe(f.subs, name, id, qos)), false)
    case Unsubscribe(id) => (f.(subs := S.Unsubscribe(f.subs, id)), id != 0 && S.FindId(f.subs, id) == |f.subs|)
    case SetWillTopic(topic, qos, retain) =>
      if |topic| >= MAXIMUM_TOPIC_NAME_LENGTH then (f, false)
      else (f.(wills := Put(f.wills, 0, OldWill(f.wills).(topic := topic, qos := qos, retain := retain))), false)
    case SetWillMessage(msg) => (f.(wills := Put(f.wills, 0, OldWill(f.wills).(msg := msg))), false)
    case DeleteWill => (f.(wills := []), false)
    case AddPublish(payload) => (f.(pubs := P.Add(f.pubs, payload)), false)
    case SetPublishMsgId(publishId, msgId) =>
      (f.(pubs := P.SetMsgId(f.pubs, publishId, msgId)), P.SeekTo(f.pubs, publishId).Mismatch?)
    case RemovePublish(publishId) =>
      (f.(pubs := P.Remove(f.pubs, publishId)), P.SeekTo(f.pubs, publishId).Mismatch?)
  }

  function StartIdStep(s: Store, id: string): Store {
    if s.started || |id| >= MAXIMUM_CLIENT_ID_LENGTH then s.(error := true)
    else StartAt(s, FindId(s.sd.registry, id))
  }

  function StartAddressStep(s: Store, address: Address): Store {
    if s.started then s.(error := true) else StartAt(s, FindAddress(s.sd.registry, address))
  }

  /** How both start operations end: at the slot that matched, or at the end of the file. */
  function StartAt(s: Store, k: nat): Store
    requires k <= |s.sd.registry|
  {
    if k < |s.sd.registry| then Store(s.sd, s.sd.registry[k], false, true, false)
    else Store(s.sd, HOLE, false, true, true)
  }

  function ApplyStep(s: Store): Store {
    s.(error := false, started := false, missing := false)
  }

  function AddStep(s: Store, id: string, address: Address, duration: uint32): Store {
    if !s.started || s.error then s
    else if !s.missing || |id| >= MAXIMUM_CLIENT_ID_LENGTH then s.(error := true)
    else
      var k := EmptySlot(s.sd.registry);
      var e := Entry(id, Print8(k), NewInfo(address, duration));
      s.(sd := AddedTo(s.sd, k, e), entry := e, missing := false)
  }

  function AddedTo(d: Disk, k: nat, e: Entry): Disk
    requires k <= |d.registry|
  {
    var n := e.fileNumber;
    Disk(Put(d.registry, k, e), Touch(d.regs, n), Touch(d.subs, n), Touch(d.wills, n), Touch(d.pubs, n))
  }

  function DeleteStep(s: Store, id: string): Store {
    if !s.Active() then s
    else if |id| >= MAXIMUM_CLIENT_ID_LENGTH || S.LiveCount(Open(s.sd.subs, s.entry.fileNumber)) > 0 then
      s.(error := true)
    else Store(DeletedFrom(s.sd, s.entry.fileNumber, FindId(s.sd.registry, id)), HOLE, s.error, s.started, true)
  }

  function DeletedFrom(d: Disk, n: string, k: nat): Disk {
    Disk(if k < |d.registry| then d.registry[k := HOLE] else d.registry,
         d.regs - {n}, d.subs - {n}, d.wills - {n}, d.pubs - {n})
  }

  function ResetStep(s: Store, id: string, address: Address, duration: uint32): Store {
    if !s.Active() then s
    else if |id| >= MAXIMUM_CLIENT_ID_LENGTH || s.entry.clientId != id then s.(error := true)
    else
      var k := FindId(s.sd.registry, id);
      if k < |s.sd.registry| then
        var e := s.sd.registry[k].(info := NewInfo(address, duration));
        s.(sd := s.sd.(registry := s.sd.registry[k := e]), entry := e)
      else s.(error := true, missing := true, entry := HOLE)
  }

  /** Writing the cached entry back to the slot its file number names.  A number past the end of the file, which no
      reachable store has, writes nothing. */
  function InfoStep(s: Store, op: InfoOp): Store {
    if !s.Active() then s
    else
      var e := s.entry.(info := OnInfo(s.entry.info, op));
      if Atoi(e.fileNumber) > |s.sd.registry| then s.(entry := e)
      else s.(sd := s.sd.(registry := Put(s.sd.registry, Atoi(e.fileNumber), e)), entry := e)
  }

  /** The precondition of a change to the files is on the files it changes. */
  predicate FileStepFits(s: Store, op: FileOp) {
    s.Active() ==> Fits(FilesOf(s.sd, s.entry.fileNumber), op)
  }

  /** Deleting a subscription does not look whether the client is registered; without one there is nothing to
      delete. */
  function FileStep(s: Store, op: FileOp): Store
    requires FileStepFits(s, op)
  {
    if s.Active() then
      var r := OnFiles(FilesOf(s.sd, s.entry.fileNumber), op);
      s.(sd := WithFiles(s.sd, s.entry.fileNumber, r.0), error := r.1)
    else if op.Unsubscribe? && s.started && !s.error then s.(error := op.id != 0)
    else s
  }

  /** begin on a card that may hold files: it ends the transaction and leaves the error flag as it is. */
  function BeginStep(s: Store): Store {
    s.(started := false, missing := false)
  }

  predicate StepFits(s: Store, op: Op) {
    op.ChangeFiles? ==> FileStepFits(s, op.files)
  }

  function Step(s: Store, op: Op): Store
    requires StepFits(s, op)
  {
    match op
    case Begin => BeginStep(s)
    case StartById(id) => StartIdStep(s, id)
    case StartByAddress(address) => StartAddressStep(s, address)
    case Apply => ApplyStep(s)
    case AddClient(id, address, duration) => AddStep(s, id, address, duration)
    case DeleteClient(id) => DeleteStep(s, id)
    case ResetClient(id, address, duration) => ResetStep(s, id, address, duration)
    case ChangeInfo(info) => InfoStep(s, info)
    case ChangeFiles(files) => FileStep(s, files)
  }
}
