/** What a client's slot files stand for: topic names in the order of their ids, subscriptions by name and id, a will,
    and queued publishes by id.  Every run on the files is a run on a plain map from client ids to that. */
module ClientMeaning {
  import opened Basics
  import opened SlotFile
  import opened ClientStore
  import opened ClientSimulation
  import opened TransactionRefinement
  import R = Registrations
  import S = Subscriptions
  import P = PublishQueue

  /** The publish ids up to issued were given out at some time; those not in the queue are free again. */
  datatype Meaning = Meaning(topics: seq<string>, subscriptions: map<(string, uint16), byte>, will: Option<Will>,
                             queue: map<uint16, P.Publish>, issued: nat) {
    /** The largest free id, or the next one if none is free. */
    ghost predicate NewId(id: nat) {
      && id !in queue
      && (1 <= id <= issued || id == issued + 1)
      && forall other: uint16 :: id < other <= issued || (id > issued && 1 <= other <= issued) ==> other in queue
    }
  }

  const NOTHING := Meaning([], map[], None, map[], 0)

  function Topics(file: seq<R.Registration>): (t: seq<string>)
    ensures |t| == |file|
  {
    seq(|file|, i requires 0 <= i < |file| => file[i].name)
  }

  function SubscriptionMap(file: seq<S.Subscription>): map<(string, uint16), byte> {
    map s | s in file && S.Qos(file, s.name, s.topicId).Some? ::
      (s.name, s.topicId) := S.Qos(file, s.name, s.topicId).value
  }

  lemma SubscriptionIn(file: seq<S.Subscription>, name: string, id: uint16)
    ensures (name, id) in SubscriptionMap(file) <==> S.Qos(file, name, id).Some?
    ensures (name, id) in SubscriptionMap(file) ==> SubscriptionMap(file)[(name, id)] == S.Qos(file, name, id).value
  {
    var k := S.Find(file, name, id);
    if k < |file| {
      assert file[k] in file;
    }
  }

  function Queue(file: seq<P.Publish>): map<uint16, P.Publish> {
    map id: uint16 | 1 <= id <= |file| && P.SeekTo(file, id).Hit? :: file[id - 1]
  }

  ghost function MeaningOf(f: Files): Meaning {
    Meaning(Topics(f.regs), SubscriptionMap(f.subs), if f.wills == [] then None else Some(f.wills[0]), Queue(f.pubs),
            |f.pubs|)
  }

  /** What each operation on the current client does to it. */
  ghost predicate Means(m: Meaning, op: FileOp, n: Meaning, error: bool) {
    match op
    case Register(topic) =>
      if |topic| > MAXIMUM_TOPIC_NAME_LENGTH then error && n == m
      else !error && n == m.(topics := if topic in m.topics then m.topics else m.topics + [topic])
    case Subscribe(name, id, qos) =>
      && !error
      && n == if S.Acceptable(name, id) && (name, id) !in m.subscriptions
              then m.(subscriptions := m.subscriptions[(name, id) := qos]) else m
    case Unsubscribe(id) =>
      if id == 0 then !error && n == m
      else if error then n == m && forall p <- m.subscriptions :: p.1 != id
      else exists p <- m.subscriptions :: p.1 == id && n == m.(subscriptions := m.subscriptions - {p})
    case SetWillTopic(topic, qos, retain) =>
      && !error
      && n == if |topic| >= MAXIMUM_TOPIC_NAME_LENGTH then m
              else m.(will := Some(Will(topic, if m.will.Some? then m.will.value.msg else [], qos, retain)))
    case SetWillMessage(msg) =>
      && !error
      && n == m.(will := Some(if m.will.Some? then m.will.value.(msg := msg) else Will("", msg, 0, false)))
    case DeleteWill => !error && n == m.(will := None)
    case AddPublish(payload) =>
      && !error
      && exists id: uint16 :: m.NewId(id) && n == m.(queue := m.queue[id := P.Publish(payload, false, 0, id)],
                                                     issued := Max(m.issued, id))
    case SetPublishMsgId(publishId, msgId) =>
      if publishId in m.queue then
        !error && n == m.(queue := m.queue[publishId := m.queue[publishId].(msgId := msgId)])
      else n == m && (error <==> publishId <= m.issued)
    case RemovePublish(publishId) =>
      if publishId in m.queue then !error && n == m.(queue := m.queue - {publishId})
      else n == m && (error <==> publishId <= m.issued)
  }

  function Max(a: nat, b: nat): nat {
    if a < b then b else a
  }

  lemma RegisterMeans(file: seq<R.Registration>, topic: string)
    requires R.Inv(file) && R.Fits(file, topic)
    ensures Topics(R.Register(file, topic).0)
         == if topic in Topics(file) then Topics(file) else Topics(file) + [topic]
  {
    var k := R.Find(file, topic);
    if k < |file| {
      assert Topics(file)[k] == topic;
    } else {
      forall i | 0 <= i < |file|
        ensures Topics(file)[i] != topic
      {
        assert !file[i].Matches(topic);
      }
    }
  }

  lemma SubscribeMeans(file: seq<S.Subscription>, name: string, id: uint16, qos: byte)
    requires S.Inv(file) && S.Fits(file, name, id)
    ensures SubscriptionMap(S.Subscribe(file, name, id, qos))
         == if S.Acceptable(name, id) && (name, id) !in SubscriptionMap(file)
            then SubscriptionMap(file)[(name, id) := qos] else SubscriptionMap(file)
  {
    hide S.Subscribe, S.Inv, S.Qos, S.Fits, SubscriptionMap;
    var f, m := S.Subscribe(file, name, id, qos), SubscriptionMap(file);
    SubscriptionIn(file, name, id);
    var n := if S.Acceptable(name, id) && (name, id) !in m then m[(name, id) := qos] else m;
    forall p: (string, uint16)
      ensures p in SubscriptionMap(f) <==> p in n
      ensures p in n ==> SubscriptionMap(f)[p] == n[p]
    {
      SubscriptionIn(file, p.0, p.1);
      SubscriptionIn(f, p.0, p.1);
      S.SubscribeSets(file, name, id, qos, p.0, p.1);
    }
    assert SubscriptionMap(f) == n;
  }

  lemma UnsubscribeMeans(file: seq<S.Subscription>, id: uint16)
    requires S.Inv(file) && id != 0
    ensures var k, m := S.FindId(file, id), SubscriptionMap(file);
            if k < |file| then
              && (file[k].name, id) in m
              && SubscriptionMap(S.Unsubscribe(file, id)) == m - {(file[k].name, id)}
            else forall p <- m :: p.1 != id
  {
    hide S.Unsubscribe, S.Inv, S.Qos, SubscriptionMap;
    var k, m, f := S.FindId(file, id), SubscriptionMap(file), S.Unsubscribe(file, id);
    if k < |file| {
      FirstIsLive(file, id);
      var gone := (file[k].name, id);
      SubscriptionIn(file, gone.0, id);
      forall p: (string, uint16)
        ensures p in SubscriptionMap(f) <==> p in m - {gone}
        ensures p in m - {gone} ==> SubscriptionMap(f)[p] == m[p]
      {
        SubscriptionIn(file, p.0, p.1);
        SubscriptionIn(f, p.0, p.1);
        S.UnsubscribeClears(file, id, p.0, p.1);
      }
      assert SubscriptionMap(f) == m - {gone};
    } else {
      forall p | p in m
        ensures p.1 != id
      {
        SubscriptionIn(file, p.0, p.1);
        IdOfQos(file, p.0, p.1);
      }
    }
  }

  lemma FirstIsLive(file: seq<S.Subscription>, id: uint16)
    requires S.Inv(file) && id != 0 && S.FindId(file, id) < |file|
    ensures S.Qos(file, file[S.FindId(file, id)].name, id).Some?
  {
    S.OnlyMatch(file, S.FindId(file, id));
  }

  lemma IdOfQos(file: seq<S.Subscription>, name: string, id: uint16)
    requires S.Qos(file, name, id).Some?
    ensures S.FindId(file, id) < |file|
  {
    var k := S.Find(file, name, id);
  }

  /** Each operation on the files is that operation on what they stand for. */
  lemma OnFilesMeans(f: Files, op: FileOp)
    requires FilesInv(f) && Fits(f, op)
    ensures Means(MeaningOf(f), op, MeaningOf(OnFiles(f, op).0), OnFiles(f, op).1)
  {
    hide R.Inv, S.Inv, P.Inv, R.Register, S.Subscribe, S.Unsubscribe, P.Add, P.Remove, P.SetMsgId, R.Fits, S.Fits,
         P.Fits, Topics, SubscriptionMap, Queue;
    match op
    case Register(topic) =>
      if |topic| <= MAXIMUM_TOPIC_NAME_LENGTH {
        RegisterMeans(f.regs, topic);
      }
    case Subscribe(name, id, qos) =>
      SubscribeMeans(f.subs, name, id, qos);
    case Unsubscribe(id) =>
      if id != 0 {
        UnsubscribeMeans(f.subs, id);
        var k, m, n := S.FindId(f.subs, id), MeaningOf(f), MeaningOf(OnFiles(f, op).0);
        if k < |f.subs| {
          var p := (f.subs[k].name, id);
          assert p in m.subscriptions && n == m.(subscriptions := m.subscriptions - {p});
        } else {
          NothingFound(f.subs, id);
        }
      } else {
        NothingUnsubscribed(f.subs);
      }
    case AddPublish(payload) =>
      AddMeans(f.pubs, payload);
      var id: uint16 := P.Space(f.pubs, |f.pubs|) + 1;
      NewIdOf(f, id);
    case SetPublishMsgId(publishId, msgId) =>
      SetMsgIdMeans(f.pubs, publishId, msgId);
    case RemovePublish(publishId) =>
      RemoveMeans(f.pubs, publishId);
    case _ =>
  }

  lemma NothingFound(file: seq<S.Subscription>, id: uint16)
    requires S.FindId(file, id) == |file|
    ensures S.Unsubscribe(file, id) == file
  {
  }

  lemma NothingUnsubscribed(file: seq<S.Subscription>)
    ensures S.Unsubscribe(file, 0) == file
  {
  }

  lemma AddMeans(file: seq<P.Publish>, payload: P.Payload)
    requires P.Inv(file) && P.Fits(file)
    ensures var id, f := P.Space(file, |file|) + 1, P.Add(file, payload);
            && id <= 0xFFFF && |f| == Max(|file|, id)
            && Queue(f) == Queue(file)[id := P.Publish(payload, false, 0, id)]
  {
    var id, f := P.Space(file, |file|) + 1, P.Add(file, payload);
    forall i | 0 <= i < |f|
      ensures f[i] == if i == id - 1 then P.Publish(payload, false, 0, id) else file[i]
    {
    }
  }

  lemma NewIdOf(f: Files, id: nat)
    requires P.Inv(f.pubs) && id == P.Space(f.pubs, |f.pubs|) + 1
    ensures MeaningOf(f).NewId(id)
  {
  }

  lemma SetMsgIdMeans(file: seq<P.Publish>, publishId: uint16, msgId: uint16)
    requires P.Inv(file) && publishId != 0
    ensures var q, f := Queue(file), P.SetMsgId(file, publishId, msgId);
            && Queue(f) == (if publishId in q then q[publishId := q[publishId].(msgId := msgId)] else q)
            && |f| == |file|
            && (P.SeekTo(file, publishId).Mismatch? <==> publishId !in q && publishId <= |file|)
  {
  }

  lemma RemoveMeans(file: seq<P.Publish>, publishId: uint16)
    requires P.Inv(file) && publishId != 0
    ensures var q, f := Queue(file), P.Remove(file, publishId);
            && Queue(f) == q - {publishId}
            && |f| == |file|
            && (P.SeekTo(file, publishId).Mismatch? <==> publishId !in q && publishId <= |file|)
  {
  }

  /** In a store in order, an operation on the current client's files changes what that client's files stand for, just
      so, and no other client. */
  lemma StepMeans(s: Store, op: FileOp)
    requires Inv(s) && s.Active()
    ensures FileStepFits(s, op) ==>
              var t, id := FileStep(s, op), s.entry.clientId;
              && Inv(t) && id in ById(s.sd) && id in ById(t.sd)
              && Means(MeaningOf(ById(s.sd)[id].files), op, MeaningOf(ById(t.sd)[id].files), t.error)
              && ById(t.sd)[id].info == ById(s.sd)[id].info
              && ById(t.sd) - {id} == ById(s.sd) - {id}
  {
    hide RegistryInv, FilesMatch, FilesInv, ById, Print8, Atoi, OnFiles, Fits, MeaningOf, Means;
    Current(s);
    if FileStepFits(s, op) {
      OnFilesMeans(FilesOf(s.sd, s.entry.fileNumber), op);
      FilesFollow(s, op);
    }
  }

  // The map from client ids to meanings

  datatype Known = Known(info: Info, meaning: Meaning)

  datatype Meant = Meant(byId: map<string, Known>, current: Option<string>, error: bool, started: bool) {
    predicate Active() {
      started && !error && current.Some? && current.value in byId
    }
  }

  ghost function Lift(a: Clients): Meant {
    Meant(LiftMap(a.byId), a.current, a.error, a.started)
  }

  ghost function LiftMap(byId: map<string, Client>): map<string, Known> {
    map id | id in byId :: LiftOne(byId[id])
  }

  ghost function LiftOne(c: Client): Known {
    Known(c.info, MeaningOf(c.files))
  }

  /** What each operation means, with nothing said about files. */
  ghost predicate MeaningNext(a: Meant, op: Op, b: Meant) {
    match op
    case Begin => b == Meant(a.byId, None, a.error, false)
    case StartById(id) =>
      if a.started || |id| >= MAXIMUM_CLIENT_ID_LENGTH then b == a.(error := true)
      else b == Meant(a.byId, if id in a.byId then Some(id) else None, false, true)
    case StartByAddress(address) =>
      if a.started then b == a.(error := true)
      else
        && b.byId == a.byId && b.started && !b.error
        && (b.current.Some? ==>
              b.current.value in a.byId && a.byId[b.current.value].info.address == address)
        && (b.current.None? ==> forall id <- a.byId :: a.byId[id].info.address != address)
    case Apply => b == Meant(a.byId, None, false, false)
    case AddClient(id, address, duration) =>
      if !a.started || a.error then b == a
      else if a.current.Some? || |id| >= MAXIMUM_CLIENT_ID_LENGTH then b == a.(error := true)
      else
        && id !in a.byId && id in b.byId && Anew(b.byId[id].info, address, duration)
        && b == a.(byId := a.byId[id := Known(b.byId[id].info, NOTHING)], current := Some(id))
    case DeleteClient(id) =>
      if !a.Active() then b == a
      else if |id| >= MAXIMUM_CLIENT_ID_LENGTH || a.byId[a.current.value].meaning.subscriptions != map[] then
        b == a.(error := true)
      else b == a.(byId := a.byId - {a.current.value}, current := None)
    case ResetClient(id, address, duration) =>
      if !a.Active() then b == a
      else if |id| >= MAXIMUM_CLIENT_ID_LENGTH || a.current != Some(id) then b == a.(error := true)
      else
        && id in b.byId && Anew(b.byId[id].info, address, duration)
        && b == a.(byId := a.byId[id := a.byId[id].(info := b.byId[id].info)])
    case ChangeInfo(info) =>
      if !a.Active() then b == a
      else
        var id := a.current.value;
        && id in b.byId && Changed(a.byId[id].info, info, b.byId[id].info)
        && b == a.(byId := a.byId[id := a.byId[id].(info := b.byId[id].info)])
    case ChangeFiles(op) =>
      if a.Active() then
        var id := a.current.value;
        && id in b.byId && b == a.(byId := a.byId[id := Known(a.byId[id].info, b.byId[id].meaning)], error := b.error)
        && Means(a.byId[id].meaning, op, b.byId[id].meaning, b.error)
      else b == if op.Unsubscribe? && a.started && !a.error then a.(error := op.id != 0) else a
  }

  lemma LiftSet(byId: map<string, Client>, id: string, c: Client)
    ensures LiftMap(byId[id := c]) == LiftMap(byId)[id := LiftOne(c)]
  {
  }

  lemma LiftDrop(byId: map<string, Client>, id: string)
    ensures LiftMap(byId - {id}) == LiftMap(byId) - {id}
  {
  }

  lemma NoFilesMeanNothing()
    ensures MeaningOf(NO_FILES) == NOTHING
  {
    assert SubscriptionMap([]) == map[] && Queue([]) == map[];
  }

  lemma SubscribedMeans(file: seq<S.Subscription>)
    requires S.Inv(file)
    ensures (exists s <- file :: s.topicId != 0) <==> SubscriptionMap(file) != map[]
  {
    hide S.Inv, S.Qos, SubscriptionMap;
    if s :| s in file && s.topicId != 0 {
      var k :| 0 <= k < |file| && file[k] == s;
      S.OnlyMatch(file, k);
      SubscriptionIn(file, s.name, s.topicId);
    }
    if SubscriptionMap(file) != map[] {
      var p :| p in SubscriptionMap(file);
      SubscriptionIn(file, p.0, p.1);
      FoundUnder(file, p.0, p.1);
    }
  }

  function LiveKeys(file: seq<S.Subscription>): set<(string, uint16)> {
    set s | s in file && s.topicId != 0 :: (s.name, s.topicId)
  }

  lemma {:induction false} LiveCountIs(file: seq<S.Subscription>)
    requires S.Inv(file)
    ensures S.LiveCount(file) == |LiveKeys(file)|
    decreases |file|
  {
    if file != [] {
      var n := |file| - 1;
      assert S.Inv(file[..n]);
      NextKey(file[..n], file[n]);
      assert file == file[..n] + [file[n]];
      hide S.Inv, LiveKeys;
      LiveCountIs(file[..n]);
    }
  }

  lemma NextKey(before: seq<S.Subscription>, last: S.Subscription)
    requires S.Inv(before + [last])
    ensures LiveKeys(before + [last])
         == LiveKeys(before) + if last.topicId != 0 then {(last.name, last.topicId)} else {}
    ensures last.topicId != 0 ==> (last.name, last.topicId) !in LiveKeys(before)
  {
    var file := before + [last];
    assert forall s :: s in file <==> s in before || s == last;
    if last.topicId != 0 {
      forall i | 0 <= i < |before| && before[i].topicId != 0
        ensures (before[i].name, before[i].topicId) != (last.name, last.topicId)
      {
        assert file[i] == before[i] && file[i] != S.HOLE && file[|before|] != S.HOLE;
      }
    }
  }

  /** The number of subscriptions a client is told is the size of its map, as far as sixteen bits go. */
  lemma CountMeans(file: seq<S.Subscription>)
    requires S.Inv(file)
    ensures S.LiveCount(file) == |SubscriptionMap(file)|
  {
    LiveCountIs(file);
    forall p: (string, uint16)
      ensures p in SubscriptionMap(file) <==> p in LiveKeys(file)
    {
      SubscriptionIn(file, p.0, p.1);
      if p in LiveKeys(file) {
        var s :| s in file && s.topicId != 0 && (s.name, s.topicId) == p;
        var i :| 0 <= i < |file| && file[i] == s;
        S.OnlyMatch(file, i);
      }
      if p in SubscriptionMap(file) {
        assert file[S.Find(file, p.0, p.1)] in file;
      }
    }
    assert SubscriptionMap(file).Keys == LiveKeys(file);
  }

  lemma FoundUnder(file: seq<S.Subscription>, name: string, id: uint16)
    requires S.Qos(file, name, id).Some?
    ensures exists s <- file :: s.topicId != 0
  {
    assert file[S.Find(file, name, id)] in file;
  }

  ghost predicate AllInOrder(a: Clients) {
    forall id <- a.byId :: FilesInv(a.byId[id].files)
  }

  lemma InOrder(s: Store)
    requires Inv(s)
    ensures AllInOrder(Abstract(s))
  {
    hide FilesInv, Print8, Atoi, ById, FilesMatch;
    forall id | id in ById(s.sd)
      ensures FilesInv(ById(s.sd)[id].files)
    {
      ViewOfMap(s.sd, id);
      SlotOf(s.sd.registry, FindId(s.sd.registry, id));
    }
  }

  /** A step of the map of slot files is that step of the map of meanings. */
  lemma NextMeans(a: Clients, op: Op, b: Clients)
    requires AllInOrder(a) && Next(a, op, b)
    ensures MeaningNext(Lift(a), op, Lift(b))
  {
    hide FilesInv, MeaningOf, Means, OnFiles, Fits, Subscribed, Anew, Changed;
    match op
    case AddClient(id, address, duration) =>
      if a.started && !a.error && a.current.None? && |id| < MAXIMUM_CLIENT_ID_LENGTH {
        LiftSet(a.byId, id, b.byId[id]);
        NoFilesMeanNothing();
      }
    case DeleteClient(id) =>
      if a.Active() {
        SubscribedMeansInOrder(a.byId[a.current.value]);
        LiftDrop(a.byId, a.current.value);
      }
    case ResetClient(id, address, duration) =>
      if a.Active() && a.current == Some(id) {
        if |id| < MAXIMUM_CLIENT_ID_LENGTH {
          LiftSet(a.byId, id, b.byId[id]);
        }
      }
    case ChangeInfo(info) =>
      if a.Active() {
        LiftSet(a.byId, a.current.value, b.byId[a.current.value]);
      }
    case ChangeFiles(op) =>
      if a.Active() {
        var c := a.byId[a.current.value];
        OnFilesMeans(c.files, op);
        LiftSet(a.byId, a.current.value, c.(files := OnFiles(c.files, op).0));
      }
    case _ =>
  }

  lemma SubscribedMeansInOrder(c: Client)
    requires FilesInv(c.files)
    ensures Subscribed(c) <==> MeaningOf(c.files).subscriptions != map[]
  {
    hide S.Inv, SubscriptionMap;
    SubscribedMeans(c.files.subs);
  }

  ghost predicate MeaningRun(a: Meant, ops: seq<Op>, b: Meant)
    decreases |ops|
  {
    if ops == [] then a == b else exists m :: MeaningNext(a, ops[0], m) && MeaningRun(m, ops[1..], b)
  }

  /** Every run of transactions in which the caller keeps the rules is a run on the map from client ids to what the
      files of each client stand for. */
  lemma {:induction false} RunMeans(s: Store, ops: seq<Op>)
    requires Inv(s) && Obeys(s, ops)
    ensures Inv(Run(s, ops)) && MeaningRun(Lift(Abstract(s)), ops, Lift(Abstract(Run(s, ops))))
    decreases |ops|
  {
    hide Inv, Next, Step, Disciplined, Abstract, Lift, MeaningNext, AllInOrder;
    if ops != [] {
      var t := Step(s, ops[0]);
      StepFollows(s, ops[0]);
      InOrder(s);
      NextMeans(Abstract(s), ops[0], Abstract(t));
      RunMeans(t, ops[1..]);
      assert MeaningNext(Lift(Abstract(s)), ops[0], Lift(Abstract(t)))
          && MeaningRun(Lift(Abstract(t)), ops[1..], Lift(Abstract(Run(t, ops[1..]))));
    }
  }
}
