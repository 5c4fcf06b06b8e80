/** The slot files refine a plain map from client id to client. */
module ClientSimulation {
  import opened Basics
  import opened SlotFile
  import opened ClientStore

  datatype Client = Client(info: Info, files: Files)

  /** The clients by id, and the id the transaction under way is about. */
  datatype Clients = Clients(byId: map<string, Client>, current: Option<string>, error: bool, started: bool) {
    predicate Active() {
      started && !error && current.Some? && current.value in byId
    }
  }

  function View(d: Disk, id: string): Option<Client> {
    var k := FindId(d.registry, id);
    if id == "" || k == |d.registry| then None
    else Some(Client(d.registry[k].info, FilesOf(d, d.registry[k].fileNumber)))
  }

  function Ids(reg: seq<Entry>): set<string> {
    set e | e in reg && e.clientId != "" :: e.clientId
  }

  function ById(d: Disk): map<string, Client> {
    map id | id in Ids(d.registry) && View(d, id).Some? :: View(d, id).value
  }

  function Abstract(s: Store): Clients {
    Clients(ById(s.sd), if s.started && !s.missing then Some(s.entry.clientId) else None, s.error, s.started)
  }

  lemma ViewOfMap(d: Disk, id: string)
    ensures id in ById(d) <==> View(d, id).Some?
    ensures id in ById(d) ==> ById(d)[id] == View(d, id).value
  {
    var k := FindId(d.registry, id);
    if id != "" && k < |d.registry| {
      assert d.registry[k] in d.registry;
    }
  }

  /** Two disks with views that differ at one id at most. */
  lemma MapSet(d: Disk, e: Disk, id: string, c: Client)
    requires View(e, id) == Some(c)
    requires forall x :: x != id ==> View(e, x) == View(d, x)
    ensures ById(e) == ById(d)[id := c]
  {
    forall x
      ensures x in ById(e) <==> x in ById(d)[id := c]
      ensures x in ById(e) ==> ById(e)[x] == ById(d)[id := c][x]
    {
      ViewOfMap(d, x);
      ViewOfMap(e, x);
    }
  }

  lemma MapDrop(d: Disk, e: Disk, id: string)
    requires View(e, id) == None
    requires forall x :: x != id ==> View(e, x) == View(d, x)
    ensures ById(e) == ById(d) - {id}
  {
    forall x
      ensures x in ById(e) <==> x in ById(d) - {id}
      ensures x in ById(e) ==> ById(e)[x] == ById(d)[x]
    {
      ViewOfMap(d, x);
      ViewOfMap(e, x);
    }
  }

  // Slots

  lemma SlotOf(reg: seq<Entry>, i: nat)
    requires RegistryInv(reg) && i < |reg| && reg[i].clientId != ""
    ensures FindId(reg, reg[i].clientId) == i
    ensures Atoi(reg[i].fileNumber) == i && Owned(reg, reg[i].fileNumber)
  {
    FileNumber(i);
    var k := FindId(reg, reg[i].clientId);
  }

  lemma OwnedIs(reg: seq<Entry>, i: nat)
    requires i < SLOTS
    ensures Owned(reg, Print8(i)) <==> i < |reg| && reg[i].clientId != ""
  {
    FileNumber(i);
  }

  /** A free slot has none of the four files. */
  lemma FreeSlotHasNoFiles(d: Disk, i: nat)
    requires DiskInv(d) && i < SLOTS && (i < |d.registry| ==> d.registry[i].clientId == "")
    ensures var n := Print8(i); n !in d.regs && n !in d.subs && n !in d.wills && n !in d.pubs
    ensures FilesOf(d, Print8(i)) == NO_FILES
  {
    OwnedIs(d.registry, i);
  }

  // The four ways the disk changes

  /** What the invariant takes once the registry is known to be in order: the files are those of the occupied slots. */
  lemma DiskInvFrom(d: Disk, e: Disk)
    requires RegistryInv(e.registry) && FilesMatch(e)
    requires DiskInv(d)
    requires forall n :: Owned(e.registry, n) ==>
               FilesInv(FilesOf(e, n)) || (Owned(d.registry, n) && FilesOf(e, n) == FilesOf(d, n))
    ensures DiskInv(e)
  {
    hide RegistryInv, FilesMatch, FilesInv, Owned, FilesOf;
  }

  lemma SameFind(reg: seq<Entry>, reg': seq<Entry>, id: string)
    requires |reg| == |reg'| && forall i :: 0 <= i < |reg| ==> (reg[i].clientId == id <==> reg'[i].clientId == id)
    ensures FindId(reg, id) == FindId(reg', id)
  {
    var k, l := FindId(reg, id), FindId(reg', id);
  }

  lemma SameFiles(d: Disk, e: Disk)
    requires d.regs == e.regs && d.subs == e.subs && d.wills == e.wills && d.pubs == e.pubs && FilesMatch(d)
    requires forall n :: Owned(e.registry, n) <==> Owned(d.registry, n)
    ensures FilesMatch(e) && forall n :: FilesOf(e, n) == FilesOf(d, n)
  {
    hide Owned;
  }

  lemma RewrittenRegistry(reg: seq<Entry>, i: nat, info: Info)
    requires RegistryInv(reg) && i < |reg| && reg[i].clientId != ""
    ensures var reg' := reg[i := reg[i].(info := info)];
            RegistryInv(reg') && forall n :: Owned(reg', n) <==> Owned(reg, n)
  {
    hide Print8, Atoi;
  }

  lemma RewrittenView(d: Disk, i: nat, info: Info, id: string)
    requires RegistryInv(d.registry) && i < |d.registry| && d.registry[i].clientId != ""
    ensures var e := d.registry[i].(info := info);
            var d' := d.(registry := d.registry[i := e]);
            View(d', id) == if id == e.clientId then Some(Client(info, FilesOf(d, e.fileNumber))) else View(d, id)
  {
    hide Print8, Atoi, RegistryInv;
    var reg' := d.registry[i := d.registry[i].(info := info)];
    SameFind(d.registry, reg', id);
    SlotOf(d.registry, i);
    assert FilesOf(d.(registry := reg'), reg'[i].fileNumber) == FilesOf(d, reg'[i].fileNumber);
  }

  /** An occupied slot is rewritten for the same client. */
  lemma Rewritten(d: Disk, i: nat, info: Info)
    requires DiskInv(d) && i < |d.registry| && d.registry[i].clientId != ""
    ensures var e := d.registry[i].(info := info);
            var d' := d.(registry := d.registry[i := e]);
            && DiskInv(d')
            && ById(d') == ById(d)[e.clientId := Client(info, FilesOf(d, e.fileNumber))]
  {
    hide RegistryInv, Owned, View, FilesInv, ById, FilesMatch, FilesOf;
    var e := d.registry[i].(info := info);
    var d' := d.(registry := d.registry[i := e]);
    RewrittenRegistry(d.registry, i, info);
    SameFiles(d, d');
    DiskInvFrom(d, d');
    forall x
      ensures View(d', x) == if x == e.clientId then Some(Client(info, FilesOf(d, e.fileNumber))) else View(d, x)
    {
      RewrittenView(d, i, info, x);
    }
    MapSet(d, d', e.clientId, Client(info, FilesOf(d, e.fileNumber)));
  }

  lemma ChangedFiles(d: Disk, n: string, f: Files)
    requires FilesMatch(d) && Owned(d.registry, n)
    ensures FilesMatch(WithFiles(d, n, f))
    ensures forall m :: FilesOf(WithFiles(d, n, f), m) == if m == n then f else FilesOf(d, m)
  {
    hide Owned;
  }

  lemma FilesChangedView(d: Disk, i: nat, f: Files, id: string)
    requires RegistryInv(d.registry) && i < |d.registry| && d.registry[i].clientId != ""
    ensures var e := d.registry[i];
            View(WithFiles(d, e.fileNumber, f), id)
            == if id == e.clientId then Some(Client(e.info, f)) else View(d, id)
  {
    hide Print8, Atoi, RegistryInv;
    SlotOf(d.registry, i);
    var k := FindId(d.registry, id);
    if id != "" && k < |d.registry| {
      SlotOf(d.registry, k);
    }
  }

  /** The files of an occupied slot are changed. */
  lemma FilesChanged(d: Disk, i: nat, f: Files)
    requires DiskInv(d) && i < |d.registry| && d.registry[i].clientId != "" && FilesInv(f)
    ensures var e := d.registry[i];
            var d' := WithFiles(d, e.fileNumber, f);
            && DiskInv(d')
            && ById(d') == ById(d)[e.clientId := Client(e.info, f)]
  {
    hide RegistryInv, Owned, View, FilesInv, ById, FilesMatch, FilesOf;
    var e := d.registry[i];
    var d' := WithFiles(d, e.fileNumber, f);
    SlotOf(d.registry, i);
    ChangedFiles(d, e.fileNumber, f);
    DiskInvFrom(d, d');
    forall x
      ensures View(d', x) == if x == e.clientId then Some(Client(e.info, f)) else View(d, x)
    {
      FilesChangedView(d, i, f, x);
    }
    MapSet(d, d', e.clientId, Client(e.info, f));
  }

  lemma AddedRegistry(reg: seq<Entry>, i: nat, e: Entry)
    requires RegistryInv(reg) && i == FindId(reg, "") < SLOTS
    requires 0 < |e.clientId| < MAXIMUM_CLIENT_ID_LENGTH && e.fileNumber == Print8(i)
    requires FindId(reg, e.clientId) == |reg|
    ensures RegistryInv(Put(reg, i, e))
  {
    hide Print8, Atoi, Put, FindId;
  }

  lemma AddedOwned(reg: seq<Entry>, i: nat, e: Entry, n: string)
    requires i <= |reg| && i < SLOTS && (i < |reg| ==> reg[i].clientId == "") && e.clientId != ""
    requires e.fileNumber == Print8(i)
    ensures Owned(Put(reg, i, e), n) <==> Owned(reg, n) || n == e.fileNumber
  {
    hide Print8, Atoi;
    FileNumber(i);
    if Owned(reg, n) {
      assert Put(reg, i, e)[Atoi(n)] == reg[Atoi(n)];
    }
  }

  lemma FindAfterPut(reg: seq<Entry>, i: nat, e: Entry, id: string)
    requires i <= |reg| && (i < |reg| ==> reg[i].clientId == "") && id != "" && id != e.clientId
    ensures var k, l := FindId(reg, id), FindId(Put(reg, i, e), id);
            (k == |reg| <==> l == |Put(reg, i, e)|) && (k < |reg| ==> l == k && Put(reg, i, e)[l] == reg[k])
  {
    var reg' := Put(reg, i, e);
    var k, l := FindId(reg, id), FindId(reg', id);
    if k < |reg| {
      assert reg'[k] == reg[k];
    }
    if l < |reg'| {
      assert reg[l] == reg'[l];
    }
  }

  lemma Touched<T>(reg: seq<Entry>, reg': seq<Entry>, files: map<string, seq<T>>, n: string)
    requires Match(reg, files) && forall m :: Owned(reg', m) <==> Owned(reg, m) || m == n
    ensures Match(reg', Touch(files, n))
    ensures forall m :: Open(Touch(files, n), m) == Open(files, m)
  {
    hide Owned;
  }

  lemma AddedFiles(d: Disk, i: nat, e: Entry)
    requires DiskInv(d) && i == FindId(d.registry, "") < SLOTS && e.clientId != "" && e.fileNumber == Print8(i)
    ensures FilesMatch(AddedTo(d, i, e))
    ensures forall n :: FilesOf(AddedTo(d, i, e), n) == FilesOf(d, n)
    ensures forall n :: Owned(AddedTo(d, i, e).registry, n) <==> Owned(d.registry, n) || n == e.fileNumber
  {
    hide RegistryInv, Owned, FilesInv, Print8, Match, Touch, Open;
    var reg' := Put(d.registry, i, e);
    forall n
      ensures Owned(reg', n) <==> Owned(d.registry, n) || n == e.fileNumber
    {
      AddedOwned(d.registry, i, e, n);
    }
    Touched(d.registry, reg', d.regs, e.fileNumber);
    Touched(d.registry, reg', d.subs, e.fileNumber);
    Touched(d.registry, reg', d.wills, e.fileNumber);
    Touched(d.registry, reg', d.pubs, e.fileNumber);
  }

  lemma AddedView(d: Disk, i: nat, e: Entry, id: string)
    requires DiskInv(d) && i == FindId(d.registry, "") < SLOTS
    requires 0 < |e.clientId| < MAXIMUM_CLIENT_ID_LENGTH && e.fileNumber == Print8(i)
    requires FindId(d.registry, e.clientId) == |d.registry|
    ensures View(AddedTo(d, i, e), id)
         == if id == e.clientId then Some(Client(e.info, FilesOf(d, e.fileNumber))) else View(d, id)
  {
    hide Print8, Atoi, FilesInv, FilesMatch, FilesOf, RegistryInv;
    AddedFiles(d, i, e);
    if id == e.clientId {
      AddedRegistry(d.registry, i, e);
      SlotOf(Put(d.registry, i, e), i);
    } else if id != "" {
      FindAfterPut(d.registry, i, e, id);
    }
  }

  /** A new client is written into a free slot; whatever was there before, it starts without any files. */
  lemma Added(d: Disk, i: nat, e: Entry)
    requires DiskInv(d) && i == FindId(d.registry, "") < SLOTS
    requires 0 < |e.clientId| < MAXIMUM_CLIENT_ID_LENGTH && e.fileNumber == Print8(i)
    requires FindId(d.registry, e.clientId) == |d.registry|
    ensures DiskInv(AddedTo(d, i, e))
    ensures ById(AddedTo(d, i, e)) == ById(d)[e.clientId := Client(e.info, NO_FILES)]
  {
    hide RegistryInv, Owned, View, FilesInv, ById, FilesMatch, FilesOf, Print8;
    var d' := AddedTo(d, i, e);
    AddedRegistry(d.registry, i, e);
    AddedFiles(d, i, e);
    FreeSlotHasNoFiles(d, i);
    NoFilesInv();
    DiskInvFrom(d, d');
    forall x
      ensures View(d', x) == if x == e.clientId then Some(Client(e.info, NO_FILES)) else View(d, x)
    {
      AddedView(d, i, e, x);
    }
    MapSet(d, d', e.clientId, Client(e.info, NO_FILES));
  }

  lemma NoFilesInv()
    ensures FilesInv(NO_FILES)
  {
  }

  lemma DeletedRegistry(reg: seq<Entry>, i: nat)
    requires RegistryInv(reg) && i < |reg| && reg[i].clientId != ""
    ensures RegistryInv(reg[i := HOLE])
  {
    hide Print8, Atoi;
  }

  lemma DeletedOwned(reg: seq<Entry>, i: nat, n: string)
    requires RegistryInv(reg) && i < |reg| && reg[i].clientId != ""
    ensures Owned(reg[i := HOLE], n) <==> Owned(reg, n) && n != reg[i].fileNumber
  {
    hide Print8, Atoi;
    FileNumber(i);
  }

  lemma Dropped<T>(reg: seq<Entry>, reg': seq<Entry>, files: map<string, seq<T>>, n: string)
    requires Match(reg, files) && forall m :: Owned(reg', m) <==> Owned(reg, m) && m != n
    ensures Match(reg', files - {n})
    ensures forall m :: m != n ==> Open(files - {n}, m) == Open(files, m)
  {
    hide Owned;
  }

  lemma DeletedFiles(d: Disk, i: nat)
    requires DiskInv(d) && i < |d.registry| && d.registry[i].clientId != ""
    ensures var n := d.registry[i].fileNumber;
            var d' := DeletedFrom(d, n, i);
            && FilesMatch(d')
            && (forall m :: m != n ==> FilesOf(d', m) == FilesOf(d, m))
            && (forall m :: Owned(d'.registry, m) <==> Owned(d.registry, m) && m != n)
  {
    hide RegistryInv, Owned, FilesInv, Print8, Match, Open;
    var reg', n := d.registry[i := HOLE], d.registry[i].fileNumber;
    forall m
      ensures Owned(reg', m) <==> Owned(d.registry, m) && m != n
    {
      DeletedOwned(d.registry, i, m);
    }
    Dropped(d.registry, reg', d.regs, n);
    Dropped(d.registry, reg', d.subs, n);
    Dropped(d.registry, reg', d.wills, n);
    Dropped(d.registry, reg', d.pubs, n);
  }

  lemma DeletedView(d: Disk, i: nat, id: string)
    requires RegistryInv(d.registry) && i < |d.registry| && d.registry[i].clientId != ""
    ensures var e := d.registry[i];
            View(DeletedFrom(d, e.fileNumber, i), id) == if id == e.clientId then None else View(d, id)
  {
    hide Print8, Atoi, RegistryInv, FindId;
    var reg' := d.registry[i := HOLE];
    UniqueId(d.registry, i);
    SlotOf(d.registry, i);
    if id != "" && id != d.registry[i].clientId {
      SameFind(d.registry, reg', id);
      var k := FindId(d.registry, id);
      if k < |d.registry| {
        SlotOf(d.registry, k);
        OtherFiles(d, d.registry[i].fileNumber, i, d.registry[k].fileNumber);
      }
    }
  }

  lemma OtherFiles(d: Disk, n: string, i: nat, m: string)
    requires m != n
    ensures FilesOf(DeletedFrom(d, n, i), m) == FilesOf(d, m)
  {
  }

  lemma UniqueId(reg: seq<Entry>, i: nat)
    requires RegistryInv(reg) && i < |reg| && reg[i].clientId != ""
    ensures forall j :: 0 <= j < |reg| && j != i ==> reg[j].clientId != reg[i].clientId
  {
    hide Print8;
  }

  /** An occupied slot is emptied and its files deleted. */
  lemma Deleted(d: Disk, i: nat)
    requires DiskInv(d) && i < |d.registry| && d.registry[i].clientId != ""
    ensures var e := d.registry[i];
            var d' := DeletedFrom(d, e.fileNumber, i);
            && DiskInv(d')
            && ById(d') == ById(d) - {e.clientId}
  {
    hide RegistryInv, Owned, View, FilesInv, ById, FilesMatch, FilesOf, Print8;
    var e := d.registry[i];
    var d' := DeletedFrom(d, e.fileNumber, i);
    DeletedRegistry(d.registry, i);
    DeletedFiles(d, i);
    DiskInvFrom(d, d');
    forall x
      ensures View(d', x) == if x == e.clientId then None else View(d, x)
    {
      DeletedView(d, i, x);
    }
    MapDrop(d, d', e.clientId);
  }
}
