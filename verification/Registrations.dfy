/** A client's topic registrations (LinuxPersistent.cpp). */
module Registrations {
  import opened Basics
  import opened SlotFile

  datatype Registration = Registration(topicId: uint16, name: string, known: bool) {
    predicate Hole() {
      topicId == 0 && name == ""
    }

    predicate Matches(topic: string) {
      topicId != 0 && |name| < MAXIMUM_TOPIC_NAME_LENGTH && name == topic
    }
  }

  /** The first registration of a name; the length of the file when there is none. */
  function Find(file: seq<Registration>, name: string): (i: nat)
    ensures i <= |file|
    ensures i < |file| ==> file[i].Matches(name)
    ensures forall j :: 0 <= j < i ==> !file[j].Matches(name)
  {
    if file == [] || file[0].Matches(name) then 0
    else
      var i := 1 + Find(file[1..], name);
      assert forall j :: 0 < j < i ==> file[j] == file[1..][j - 1];
      i
  }

  /** Slot i holds topic id i + 1, no name is there twice, and there are no holes. */
  ghost predicate Inv(file: seq<Registration>) {
    && |file| <= 0xFFFF
    && (forall i :: 0 <= i < |file| ==>
          file[i].topicId == i + 1 && |file[i].name| < MAXIMUM_TOPIC_NAME_LENGTH && file[i].known)
    && (forall i, j :: 0 <= i < j < |file| ==> file[i].name != file[j].name)
  }

  /** There is an id left for the name, and it fits its field: a name of exactly 255 bytes passes the length test and
      then overruns the field by its terminator. */
  predicate Fits(file: seq<Registration>, name: string) {
    |name| < MAXIMUM_TOPIC_NAME_LENGTH && (Find(file, name) < |file| || |file| < 0xFFFF)
  }

  /** What registering does to the file, and the topic id it answers. */
  function Register(file: seq<Registration>, name: string): (r: (seq<Registration>, uint16))
    requires Fits(file, name)
    ensures file <= r.0
  {
    var k := Find(file, name);
    if k < |file| then (file, file[k].topicId)
    else (file + [Registration(|file| + 1, name, true)], |file| + 1)
  }

  /** add_client_registration behind its checks.  entry_number counts the failed read at the end of the file as well,
      so a new registration gets the number of its slot plus one. */
  method AddRegistration(file: seq<Registration>, name: string)
    returns (newFile: seq<Registration>, topicId: uint16)
    requires Inv(file) && Fits(file, name)
    ensures (newFile, topicId) == Register(file, name)
    ensures Inv(newFile)
  {
    var entryNumber: uint16, firstEmpty := 0, -1;
    while entryNumber < |file|
      invariant entryNumber <= Find(file, name) && firstEmpty == -1
    {
      var registration := file[entryNumber];
      if registration.topicId == 0 && |registration.name| == 0 {
        firstEmpty := entryNumber;
      } else if registration.topicId != 0 && |registration.name| < MAXIMUM_TOPIC_NAME_LENGTH
                && registration.name == name {
        return file, registration.topicId;
      }
      entryNumber := entryNumber + 1;
    }
    entryNumber := entryNumber + 1;
    if firstEmpty == -1 {
      firstEmpty := entryNumber - 1;
    }
    newFile := Put(file, firstEmpty, Registration(entryNumber, name, true));
    assert forall i :: 0 <= i < |file| ==> file[i].Matches(file[i].name);
    return newFile, entryNumber;
  }

  /** get_topic_name behind its checks. */
  method TopicName(file: seq<Registration>, topicId: uint16) returns (found: bool, name: string)
    requires Inv(file)
    ensures found <==> 1 <= topicId <= |file|
    ensures found ==> name == file[topicId - 1].name
  {
    if topicId == 0 {
      return false, "";
    }
    for i := 0 to |file|
      invariant i < topicId
    {
      if file[i].topicId == topicId && |file[i].name| < MAXIMUM_TOPIC_NAME_LENGTH {
        return true, file[i].name;
      }
    }
    return false, "";
  }

  // Runs

  predicate AllFit(file: seq<Registration>, names: seq<string>)
    decreases |names|
  {
    names == [] || (Fits(file, names[0]) && AllFit(Register(file, names[0]).0, names[1..]))
  }

  function RegisterAll(file: seq<Registration>, names: seq<string>): (r: (seq<Registration>, seq<uint16>))
    requires AllFit(file, names)
    ensures |r.1| == |names|
    decreases |names|
  {
    if names == [] then (file, [])
    else
      var (f, id) := Register(file, names[0]);
      var (g, ids) := RegisterAll(f, names[1..]);
      (g, [id] + ids)
  }

  lemma RegisterKeepsInv(file: seq<Registration>, name: string)
    requires Inv(file) && Fits(file, name)
    ensures Inv(Register(file, name).0)
    ensures var (f, id) := Register(file, name); 1 <= id <= |f| && f[id - 1].name == name
  {
    forall i | 0 <= i < |file|
      ensures file[i].name == name ==> file[i].Matches(name)
    {
    }
  }

  /** Every id answered in a run stands for its name at the end of the run. */
  ghost predicate Answered(file: seq<Registration>, ids: seq<uint16>, names: seq<string>) {
    |ids| == |names| && forall k :: 0 <= k < |names| ==> 1 <= ids[k] <= |file| && file[ids[k] - 1].name == names[k]
  }

  lemma AnsweredFirst(file: seq<Registration>, id: uint16, ids: seq<uint16>, names: seq<string>)
    requires names != [] && Answered(file, ids, names[1..])
    requires 1 <= id <= |file| && file[id - 1].name == names[0]
    ensures Answered(file, [id] + ids, names)
  {
  }

  /** Only names of the run are added. */
  ghost predicate AddedFrom(file: seq<Registration>, newFile: seq<Registration>, names: seq<string>) {
    file <= newFile && forall i :: |file| <= i < |newFile| ==> newFile[i].name in names
  }

  lemma AddedFirst(file: seq<Registration>, mid: seq<Registration>, newFile: seq<Registration>, names: seq<string>)
    requires names != [] && AddedFrom(mid, newFile, names[1..]) && AddedFrom(file, mid, names[..1])
    ensures AddedFrom(file, newFile, names)
  {
    forall i | |file| <= i < |newFile|
      ensures newFile[i].name in names
    {
      if i < |mid| {
        assert newFile[i] == mid[i] && newFile[i].name in names[..1];
      } else {
        assert newFile[i].name in names[1..];
      }
    }
  }

  lemma {:induction false} RunKeepsAnswers(file: seq<Registration>, names: seq<string>)
    requires Inv(file) && AllFit(file, names)
    ensures var (f, ids) := RegisterAll(file, names);
            Inv(f) && Answered(f, ids, names) && AddedFrom(file, f, names)
    decreases |names|
  {
    hide Inv, Fits, Register, Answered, AddedFrom;
    if names == [] {
      NothingRegistered(file);
    } else {
      var (f, id) := Register(file, names[0]);
      RegisterKeepsInv(file, names[0]);
      RunKeepsAnswers(f, names[1..]);
      var (g, ids) := RegisterAll(f, names[1..]);
      FirstStays(file, f, g, id, names);
      AnsweredFirst(g, id, ids, names);
      AddedFirst(file, f, g, names);
    }
  }

  lemma NothingRegistered(file: seq<Registration>)
    ensures Answered(file, [], []) && AddedFrom(file, file, [])
  {
  }

  lemma FirstStays(file: seq<Registration>, f: seq<Registration>, g: seq<Registration>, id: uint16, names: seq<string>)
    requires names != [] && Fits(file, names[0]) && Register(file, names[0]) == (f, id)
    requires AddedFrom(f, g, names[1..]) && 1 <= id <= |f| && f[id - 1].name == names[0]
    ensures AddedFrom(file, f, names[..1]) && id <= |g| && g[id - 1].name == names[0]
  {
    assert g[id - 1] == f[id - 1];
    assert names[0] in names[..1];
  }

  /** Registering never changes what an id stands for, each id answered stands for its name ever after, and two names
      get the same id exactly when they are the same name. */
  lemma StableBijection(file: seq<Registration>, names: seq<string>)
    requires Inv(file) && AllFit(file, names)
    ensures var (f, ids) := RegisterAll(file, names);
            && Inv(f) && Answered(f, ids, names) && AddedFrom(file, f, names)
            && (forall k, l :: 0 <= k < |names| && 0 <= l < |names| ==> (ids[k] == ids[l] <==> names[k] == names[l]))
  {
    RunKeepsAnswers(file, names);
    var (f, ids) := RegisterAll(file, names);
    SameIdSameName(f, ids, names);
  }

  lemma SameIdSameName(file: seq<Registration>, ids: seq<uint16>, names: seq<string>)
    requires Inv(file) && Answered(file, ids, names)
    ensures forall k, l :: 0 <= k < |names| && 0 <= l < |names| ==> (ids[k] == ids[l] <==> names[k] == names[l])
  {
  }

  /** A name that is registered again is answered its old id and the file stays as it is. */
  lemma RegisteredAgain(file: seq<Registration>, i: nat)
    requires Inv(file) && i < |file|
    ensures Fits(file, file[i].name) && Register(file, file[i].name) == (file, i + 1)
  {
    var k := Find(file, file[i].name);
    assert file[i].Matches(file[i].name);
  }
}
