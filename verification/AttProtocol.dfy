/** What every run of the ATT request engine keeps: the sequential protocol of the Bluetooth Core Specification
    (Vol 3, Part F, section 3.3.2), no lost wake-up, and the conservation of commands. */
module AttProtocol {
  import opened Basics
  import opened AttCodes
  import opened AttEngine

  /** Only the request at the head can have been written, and never while a callback is running on a command that
      was taken off the queue. */
  ghost predicate RequestsOk(q: seq<Command>, idle: bool) {
    forall i :: 0 <= i < |q| ==>
      && !IsResponse(q[i].opcode) && q[i].expected == Opcode2Expected(q[i].opcode)
      && (q[i].sent ==> i == 0 && q[i].expected != 0 && idle)
  }

  ghost predicate ResponsesOk(q: seq<Command>) {
    forall i :: 0 <= i < |q| ==> IsResponse(q[i].opcode) && !q[i].sent && q[i].expected == 0
  }

  ghost predicate Shape(e: Engine) {
    RequestsOk(e.requests, e.phase.Idle?) && ResponsesOk(e.responses)
  }

  /** What is on the air if the engine keeps to one request at a time. */
  function HeadOnAir(q: seq<Command>): seq<OnAir> {
    if q != [] && q[0].sent then [OnAir(q[0].token, q[0].expected)] else []
  }

  /** At most one request is outstanding: the one at the head of the queue. */
  ghost predicate Sequential(e: Engine) {
    !Ending(e) ==> e.onAir == HeadOnAir(e.requests)
  }

  /** The timer runs exactly while the head of the queue is written. */
  predicate Timed(e: Engine) {
    !Ending(e) ==> (e.timeoutWatch <==> HeadSent(e))
  }

  predicate Unwritten(e: Engine) {
    e.responses != [] || (e.requests != [] && !e.requests[0].sent)
  }

  /** Whatever waits to be written has a watch armed for it, or is about to get one. */
  predicate Awake(e: Engine) {
    !Ending(e) && Unwritten(e) ==> e.writeWatch || (e.phase.Handling? && e.phase.wake)
  }

  function Held(p: Phase): seq<nat> {
    if p.Idle? then [] else [p.command.token]
  }

  function Times(s: seq<nat>, token: nat): nat {
    if s == [] then 0 else (if s[0] == token then 1 else 0) + Times(s[1..], token)
  }

  /** In how many places a command is. */
  function Places(e: Engine, token: nat): nat {
    Times(Toks(e.requests), token) + Times(Toks(e.responses), token)
    + Times(Held(e.phase), token) + Times(e.destroyed, token)
  }

  /** Every command ever accepted is in exactly one place, exactly once. */
  ghost predicate Ledger(e: Engine) {
    forall t: nat :: Places(e, t) == if t < e.nextToken then 1 else 0
  }

  ghost predicate CalledBack(e: Engine, token: nat) {
    exists i :: 0 <= i < |e.results| && e.results[i].token == token
  }

  /** A queued command has not been called back, and its callback is gone once it was cancelled; the callback of a
      command being handled has run, if it had one. */
  ghost predicate Callbacks(e: Engine) {
    && (forall i, j :: 0 <= i < j < |e.results| ==> e.results[i].token != e.results[j].token)
    && (forall i :: 0 <= i < |e.results| ==> e.results[i].token < e.nextToken && e.results[i].token !in e.cancelled)
    && (forall t :: t in e.cancelled ==> t < e.nextToken)
    && (forall c :: c in e.requests || c in e.responses ==>
          !CalledBack(e, c.token) && (c.token in e.cancelled ==> !c.func))
    && (!e.phase.Idle? ==> (CalledBack(e, e.phase.command.token) <==> e.phase.command.func))
  }

  ghost predicate Inv(e: Engine) {
    Shape(e) && Timed(e) && Ledger(e) && Callbacks(e)
  }

  // Shape and sequence

  lemma RequestAdded(q: seq<Command>, c: Command, idle: bool)
    requires RequestsOk(q, idle)
    requires !IsResponse(c.opcode) && c.expected == Opcode2Expected(c.opcode) && !c.sent
    ensures RequestsOk(q + [c], idle) && HeadOnAir(q + [c]) == HeadOnAir(q)
    ensures RequestsOk([c] + q, idle) <==> HeadOnAir(q) == []
  {
    hide IsResponse, Opcode2Expected;
    if q != [] && q[0].sent {
      assert ([c] + q)[1] == q[0];
    }
  }

  lemma SendKeepsShape(e: Engine, id: uint32, opcode: byte, func: bool)
    requires Shape(e) && Timed(e)
    ensures Disciplined(e, Send(id, opcode, func)) <==> Shape(SendStep(e, id, opcode, func))
    ensures Disciplined(e, Send(id, opcode, func)) ==> Timed(SendStep(e, id, opcode, func))
    ensures Disciplined(e, Send(id, opcode, func)) && Sequential(e) ==> Sequential(SendStep(e, id, opcode, func))
  {
    hide RequestsOk, Opcode2Expected;
    if !e.stale {
      var e' := SendStep(e, id, opcode, func);
      if !IsResponse(opcode) {
        RequestAdded(e.requests, if id != 0 then e'.requests[0] else e'.requests[|e.requests|], e.phase.Idle?);
      }
    }
  }

  lemma RequestCancelled(q: seq<Command>, i: nat, idle: bool)
    requires i < |q| && RequestsOk(q, idle)
    ensures RequestsOk(CancelAt(q, i).0, idle) && HeadOnAir(CancelAt(q, i).0) == HeadOnAir(q)
  {
    hide IsResponse, Opcode2Expected;
  }

  lemma CancelKeepsShape(e: Engine, id: uint32)
    requires Shape(e) && Timed(e)
    ensures Shape(CancelStep(e, id)) && Timed(CancelStep(e, id))
    ensures Sequential(e) ==> Sequential(CancelStep(e, id))
  {
    var i, j := Find(e.requests, id), Find(e.responses, id);
    if i < |e.requests| {
      RequestCancelled(e.requests, i, e.phase.Idle?);
      hide RequestsOk, ResponsesOk, CancelAt;
      assert HeadSent(CancelStep(e, id)) == HeadSent(e);
    } else if j < |e.responses| {
      hide RequestsOk;
      assert ResponsesOk(CancelAt(e.responses, j).0);
    }
  }

  /** On the queues that occur, cancel_all_per_queue keeps the head if it was written, and nothing else. */
  lemma {:induction false} CancelLoopUnsent(q: seq<Command>, first: bool, head: Option<Command>)
    requires forall i :: 0 <= i < |q| ==> !q[i].sent
    ensures CancelLoop(q, first, head) == (head, Toks(q))
  {
    if q != [] {
      CancelLoopUnsent(q[1..], false, head);
      assert Toks(q) == [q[0].token] + Toks(q[1..]);
    }
  }

  lemma CancelLoopKeepsHead(q: seq<Command>)
    requires forall i :: 0 < i < |q| ==> !q[i].sent
    ensures var (kept, gone) := CancelLoop(q, true, None);
            if q != [] && q[0].sent then KeptQueue(kept) == [q[0].(func := false)] && gone == Toks(q[1..])
            else KeptQueue(kept) == [] && gone == Toks(q)
  {
    if q != [] && q[0].sent {
      assert forall i :: 0 <= i < |q[1..]| ==> q[1..][i] == q[i + 1];
      CancelLoopUnsent(q[1..], true, Some(q[0].(func := false)));
    } else {
      CancelLoopUnsent(q, true, None);
    }
  }

  lemma CancelAllKeepsShape(e: Engine)
    requires Shape(e) && Timed(e)
    ensures Shape(CancelAllStep(e)) && Timed(CancelAllStep(e))
    ensures Sequential(e) ==> Sequential(CancelAllStep(e))
  {
    CancelLoopKeepsHead(e.requests);
    CancelLoopKeepsHead(e.responses);
    hide CancelLoop, KeptQueue, IsResponse, Opcode2Expected;
  }

  lemma HeadRemoved(q: seq<Command>, idle: bool, idle': bool)
    requires q != [] && RequestsOk(q, idle)
    ensures RequestsOk(q[1..], idle') && HeadOnAir(q[1..]) == []
    ensures !q[0].sent && q[0].expected != 0 && idle ==> RequestsOk(q[0 := q[0].(sent := true)], idle)
  {
    hide IsResponse, Opcode2Expected;
  }

  lemma WritableKeepsShape(e: Engine, io: Io)
    requires Shape(e) && Timed(e) && Enabled(e, Writable(io))
    ensures Shape(WritableStep(e, io)) && Timed(WritableStep(e, io))
    ensures Sequential(e) ==> Sequential(WritableStep(e, io))
  {
    if e.responses != [] {
      hide RequestsOk;
    } else if e.requests != [] {
      HeadRemoved(e.requests, e.phase.Idle?, e.phase.Idle?);
      hide RequestsOk;
    } else {
      hide RequestsOk;
    }
  }

  lemma DispatchKeepsShape(e: Engine, s: Step)
    requires Shape(e) && Timed(e) && Enabled(e, s)
    requires s.Receive? || s.ReceiveDone? || s.Expire? || s.ExpireNext?
    ensures Shape(Next(e, s)) && Timed(Next(e, s))
    ensures Sequential(e) ==> (Sequential(Next(e, s)) <==> Conforming(e, s))
  {
    hide CallBack, Status, IsResponse, ResponsesOk, Opcode2Expected;
    if e.requests != [] {
      HeadRemoved(e.requests, e.phase.Idle?, Next(e, s).phase.Idle?);
    }
    if s.ReceiveDone? {
      StillOk(e.requests);
    }
    hide RequestsOk;
  }

  lemma StillOk(q: seq<Command>)
    requires RequestsOk(q, false)
    ensures RequestsOk(q, true) && HeadOnAir(q) == []
  {
    hide IsResponse, Opcode2Expected;
  }

  // Ledger

  lemma {:induction false} TimesConcat(a: seq<nat>, b: seq<nat>, t: nat)
    ensures Times(a + b, t) == Times(a, t) + Times(b, t)
  {
    if a == [] {
      assert a + b == b;
    } else {
      assert (a + b)[1..] == a[1..] + b;
      TimesConcat(a[1..], b, t);
    }
  }

  lemma TimesNone(t: nat)
    ensures Times([], t) == 0
  {
  }

  lemma TimesOne(x: nat, t: nat)
    ensures Times([x], t) == if x == t then 1 else 0
  {
    assert [x][1..] == [];
  }

  lemma ToksSplit(q: seq<Command>, i: nat, t: nat)
    requires i < |q|
    ensures Times(Toks(q), t) == Times(Toks(q[..i] + q[i + 1..]), t) + Times([q[i].token], t)
  {
    assert Toks(q) == Toks(q[..i]) + ([q[i].token] + Toks(q[i + 1..]));
    assert Toks(q[..i] + q[i + 1..]) == Toks(q[..i]) + Toks(q[i + 1..]);
    TimesConcat(Toks(q[..i]), [q[i].token] + Toks(q[i + 1..]), t);
    TimesConcat([q[i].token], Toks(q[i + 1..]), t);
    TimesConcat(Toks(q[..i]), Toks(q[i + 1..]), t);
  }

  lemma TokenCounted(q: seq<Command>, c: Command)
    requires c in q
    ensures Times(Toks(q), c.token) > 0
  {
    var i :| 0 <= i < |q| && q[i] == c;
    ToksSplit(q, i, c.token);
    TimesOne(c.token, c.token);
  }

  /** Commands in different places, or at different positions, are different commands. */
  lemma Apart(e: Engine, c: Command, i: nat)
    requires Ledger(e)
    ensures i < |e.requests| && (c in e.requests[..i] + e.requests[i + 1..] || c in e.responses) ==>
              c.token != e.requests[i].token
    ensures i < |e.responses| && (c in e.responses[..i] + e.responses[i + 1..] || c in e.requests) ==>
              c.token != e.responses[i].token
    ensures !e.phase.Idle? && (c in e.requests || c in e.responses) ==> c.token != e.phase.command.token
    ensures c in e.requests || c in e.responses ==> c.token < e.nextToken
    ensures !e.phase.Idle? ==> e.phase.command.token < e.nextToken
  {
    assert Places(e, c.token) == if c.token < e.nextToken then 1 else 0;
    if !e.phase.Idle? {
      assert Places(e, e.phase.command.token) == if e.phase.command.token < e.nextToken then 1 else 0;
      TimesOne(e.phase.command.token, e.phase.command.token);
    }
    hide Ledger, Toks, Times;
    if c in e.requests {
      TokenCounted(e.requests, c);
    }
    if c in e.responses {
      TokenCounted(e.responses, c);
    }
    if i < |e.requests| {
      ToksSplit(e.requests, i, c.token);
      TimesOne(e.requests[i].token, c.token);
      if c in e.requests[..i] + e.requests[i + 1..] {
        TokenCounted(e.requests[..i] + e.requests[i + 1..], c);
      }
    }
    if i < |e.responses| {
      ToksSplit(e.responses, i, c.token);
      TimesOne(e.responses[i].token, c.token);
      if c in e.responses[..i] + e.responses[i + 1..] {
        TokenCounted(e.responses[..i] + e.responses[i + 1..], c);
      }
    }
  }

  /** One queue loses what the list of destroyed commands gains. */
  lemma Discarded(e: Engine, e': Engine, gone: seq<nat>)
    requires Ledger(e) && e'.nextToken == e.nextToken && e'.phase == e.phase
    requires e'.destroyed == e.destroyed + gone
    requires forall t: nat :: Times(Toks(e.requests), t) + Times(Toks(e.responses), t)
                           == Times(Toks(e'.requests), t) + Times(Toks(e'.responses), t) + Times(gone, t)
    ensures Ledger(e')
  {
    hide Toks, Times, Held;
    forall t: nat
      ensures Places(e', t) == Places(e, t)
    {
      TimesConcat(e.destroyed, gone, t);
      assert Times(Toks(e.requests), t) + Times(Toks(e.responses), t)
          == Times(Toks(e'.requests), t) + Times(Toks(e'.responses), t) + Times(gone, t);
    }
  }

  lemma SendKeepsLedger(e: Engine, id: uint32, opcode: byte, func: bool)
    requires Ledger(e)
    ensures Ledger(SendStep(e, id, opcode, func))
  {
    hide Opcode2Expected, IsResponse, Times, Toks;
    var e' := SendStep(e, id, opcode, func);
    if !e.stale {
      var c := if IsResponse(opcode) then e'.responses[|e.responses|]
               else if id != 0 then e'.requests[0] else e'.requests[|e.requests|];
      forall t: nat
        ensures Places(e', t) == Places(e, t) + if t == e.nextToken then 1 else 0
      {
        AddedToks(e.responses, c, t);
        AddedToks(e.requests, c, t);
      }
    }
  }

  lemma AddedToks(q: seq<Command>, c: Command, t: nat)
    ensures Times(Toks(q + [c]), t) == Times(Toks(q), t) + if c.token == t then 1 else 0
    ensures Times(Toks([c] + q), t) == Times(Toks(q), t) + if c.token == t then 1 else 0
  {
    assert Toks(q + [c]) == Toks(q) + [c.token] && Toks([c] + q) == [c.token] + Toks(q);
    TimesConcat(Toks(q), [c.token], t);
    TimesConcat([c.token], Toks(q), t);
    TimesOne(c.token, t);
  }

  lemma CancelAtKeeps(q: seq<Command>, i: nat, t: nat)
    requires i < |q|
    ensures Times(Toks(CancelAt(q, i).0), t) + Times(CancelAt(q, i).1, t) == Times(Toks(q), t)
  {
    ToksSplit(q, i, t);
    if i == 0 && q[0].sent {
      assert Toks(q[0 := q[0].(func := false)]) == Toks(q);
    }
  }

  lemma CancelKeepsLedger(e: Engine, id: uint32)
    requires Ledger(e)
    ensures Ledger(CancelStep(e, id))
  {
    var i, j := Find(e.requests, id), Find(e.responses, id);
    hide CancelAt, Toks, Times, Ledger;
    if i < |e.requests| {
      forall t {
        CancelAtKeeps(e.requests, i, t);
      }
      Discarded(e, CancelStep(e, id), CancelAt(e.requests, i).1);
    } else if j < |e.responses| {
      forall t {
        CancelAtKeeps(e.responses, j, t);
      }
      Discarded(e, CancelStep(e, id), CancelAt(e.responses, j).1);
    }
  }

  lemma CancelLoopKeeps(q: seq<Command>, t: nat)
    requires forall i :: 0 < i < |q| ==> !q[i].sent
    ensures var (kept, gone) := CancelLoop(q, true, None);
            Times(Toks(KeptQueue(kept)), t) + Times(gone, t) == Times(Toks(q), t)
  {
    CancelLoopKeepsHead(q);
    hide CancelLoop, KeptQueue;
    if q != [] && q[0].sent {
      ToksSplit(q, 0, t);
      assert q[..0] + q[1..] == q[1..] && Toks([q[0].(func := false)]) == [q[0].token];
    }
  }

  lemma CancelAllKeepsLedger(e: Engine)
    requires Shape(e) && Ledger(e)
    ensures Ledger(CancelAllStep(e))
  {
    var gone, gone' := CancelLoop(e.requests, true, None).1, CancelLoop(e.responses, true, None).1;
    var e' := CancelAllStep(e);
    forall t: nat
      ensures Times(Toks(e.requests), t) + Times(Toks(e.responses), t)
           == Times(Toks(e'.requests), t) + Times(Toks(e'.responses), t) + Times(gone + gone', t)
    {
      TimesConcat(gone, gone', t);
      CancelLoopKeeps(e.requests, t);
      CancelLoopKeeps(e.responses, t);
      hide CancelLoop, Toks, KeptQueue, Times;
    }
    hide CancelLoop, Toks, KeptQueue, Times, Ledger, Shape;
    assert e.destroyed + gone + gone' == e.destroyed + (gone + gone');
    Discarded(e, CancelAllStep(e), gone + gone');
  }

  /** The head of a queue goes somewhere else, or stays and is marked as sent. */
  lemma HeadToks(q: seq<Command>, t: nat)
    requires q != []
    ensures Times(Toks(q), t) == Times(Toks(q[1..]), t) + Times([q[0].token], t)
    ensures Toks(q[0 := q[0].(sent := true)]) == Toks(q)
  {
    ToksSplit(q, 0, t);
    assert q[..0] + q[1..] == q[1..];
    assert Toks(q[0 := q[0].(sent := true)]) == Toks(q);
  }

  lemma WritableKeepsLedger(e: Engine, io: Io)
    requires Ledger(e)
    ensures Ledger(WritableStep(e, io))
  {
    hide Toks, Times, Ledger;
    var e' := WritableStep(e, io);
    forall t | e.requests != [] {
      HeadToks(e.requests, t);
    }
    forall t | e.responses != [] {
      HeadToks(e.responses, t);
    }
    if e'.destroyed == e.destroyed {
      assert Toks(e'.requests) == Toks(e.requests) && Toks(e'.responses) == Toks(e.responses) by {
        if e.requests != [] {
          HeadToks(e.requests, 0);
        }
        if e.responses != [] {
          HeadToks(e.responses, 0);
        }
      }
      assert e'.nextToken == e.nextToken && e'.phase == e.phase;
      hide WritableStep;
      SameToks(e, e');
    } else if e.responses != [] {
      Discarded(e, e', [e.responses[0].token]);
    } else {
      Discarded(e, e', [e.requests[0].token]);
    }
  }

  lemma SameToks(e: Engine, e': Engine)
    requires Ledger(e) && e'.nextToken == e.nextToken
    requires Toks(e'.requests) == Toks(e.requests) && Toks(e'.responses) == Toks(e.responses)
    requires forall t: nat :: Times(Held(e'.phase), t) + Times(e'.destroyed, t)
                           == Times(Held(e.phase), t) + Times(e.destroyed, t)
    ensures Ledger(e')
  {
    hide Toks, Times, Held;
    assert forall t: nat :: Places(e', t) == Places(e, t);
  }

  lemma Moved(e: Engine, e': Engine)
    requires Ledger(e) && e.phase.Idle? && e.requests != [] && e'.nextToken == e.nextToken
    requires e'.requests == e.requests[1..] && e'.responses == e.responses && e'.destroyed == e.destroyed
    requires !e'.phase.Idle? && e'.phase.command == e.requests[0]
    ensures Ledger(e')
  {
    forall t: nat
      ensures Places(e', t) == Places(e, t)
    {
      HeadToks(e.requests, t);
    }
  }

  /** The command just called back is destroyed, as if the engine were idle for a moment. */
  function Between(e: Engine): Engine
    requires !e.phase.Idle?
  {
    e.(phase := Idle, destroyed := e.destroyed + [e.phase.command.token])
  }

  lemma BetweenKeepsLedger(e: Engine)
    requires Ledger(e) && !e.phase.Idle?
    ensures Ledger(Between(e))
  {
    hide Toks, Times;
    forall t: nat
      ensures Times(Held(Idle), t) == 0
      ensures Times(e.destroyed + Held(e.phase), t) == Times(e.destroyed, t) + Times(Held(e.phase), t)
    {
      TimesNone(t);
      TimesConcat(e.destroyed, Held(e.phase), t);
    }
    SameToks(e, Between(e));
  }

  lemma DispatchKeepsLedger(e: Engine, s: Step)
    requires Ledger(e) && Enabled(e, s) && (s.Receive? || s.ReceiveDone? || s.Expire? || s.ExpireNext?)
    ensures Ledger(Next(e, s))
  {
    hide Toks, Times, Status, CallBack, IsResponse, Ledger;
    var e' := Next(e, s);
    var start := if e.phase.Idle? then e else Between(e);
    if !e.phase.Idle? {
      BetweenKeepsLedger(e);
    }
    if e'.phase.Idle? {
      SameToks(start, e');
    } else {
      Moved(start, e');
    }
  }

  // Callbacks

  ghost predicate Queued(e: Engine, c: Command) {
    c in e.requests || c in e.responses
  }

  /** Steps that run no callback: queued commands stay what they were, lose their callback, or are new. */
  lemma CallbacksCarry(e: Engine, e': Engine)
    requires Callbacks(e)
    requires e'.results == e.results && e'.nextToken >= e.nextToken
    requires e'.phase.Idle? || (!e.phase.Idle? && e'.phase.command == e.phase.command)
    requires forall d :: Queued(e', d) ==>
               || d.token >= e.nextToken
               || exists c :: Queued(e, c) && c.token == d.token && (d.func ==> c.func)
    requires forall t :: t in e'.cancelled ==> t < e'.nextToken
    requires forall t :: t in e'.cancelled && t !in e.cancelled ==> t < e.nextToken && !CalledBack(e, t)
    requires forall d :: Queued(e', d) && d.token in e'.cancelled && d.token !in e.cancelled ==> !d.func
    ensures Callbacks(e')
  {
    assert forall t :: CalledBack(e', t) == CalledBack(e, t);
    forall d | d in e'.requests || d in e'.responses
      ensures !CalledBack(e', d.token) && (d.token in e'.cancelled ==> !d.func)
    {
      assert Queued(e', d);
    }
  }

  lemma SendKeepsCallbacks(e: Engine, id: uint32, opcode: byte, func: bool)
    requires Callbacks(e)
    ensures Callbacks(SendStep(e, id, opcode, func))
  {
    var e' := SendStep(e, id, opcode, func);
    forall d | Queued(e', d)
      ensures d.token >= e.nextToken || exists c :: Queued(e, c) && c.token == d.token && (d.func ==> c.func)
    {
      assert d.token == e.nextToken || Queued(e, d);
    }
    CallbacksCarry(e, e');
  }

  /** A queued command has not been called back and is not the one being handled. */
  lemma QueuedApart(e: Engine, c: Command)
    requires Ledger(e) && Callbacks(e) && Queued(e, c)
    ensures c.token < e.nextToken && !CalledBack(e, c.token)
  {
    Apart(e, c, 0);
  }

  lemma CancelAtQueue(q: seq<Command>, i: nat, d: Command)
    requires i < |q| && d in CancelAt(q, i).0
    ensures d in q[..i] + q[i + 1..] || (i == 0 && q[0].sent && d == q[0].(func := false))
  {
  }

  lemma CancelKeepsCallbacks(e: Engine, id: uint32)
    requires Ledger(e) && Callbacks(e)
    ensures Callbacks(CancelStep(e, id))
  {
    var i, j := Find(e.requests, id), Find(e.responses, id);
    hide Ledger, Callbacks, CancelAt;
    if i < |e.requests| {
      RequestGone(e, i, CancelStep(e, id));
    } else if j < |e.responses| {
      ResponseGone(e, j, CancelStep(e, id));
    }
  }

  lemma RequestGone(e: Engine, i: nat, e': Engine)
    requires Ledger(e) && Callbacks(e) && i < |e.requests|
    requires e' == e.(requests := CancelAt(e.requests, i).0, destroyed := e'.destroyed,
                      cancelled := e.cancelled + {e.requests[i].token})
    ensures Callbacks(e')
  {
    hide Ledger, Callbacks, CancelAt, CalledBack;
    var cmd := e.requests[i];
    QueuedApart(e, cmd);
    forall d | Queued(e', d)
      ensures exists c :: Queued(e, c) && c.token == d.token && (d.func ==> c.func)
      ensures d.token == cmd.token ==> !d.func
    {
      Apart(e, d, i);
      if d in e'.requests {
        CancelAtQueue(e.requests, i, d);
      }
      assert Queued(e, if d.token == cmd.token then cmd else d);
    }
    CallbacksBounds(e);
    CallbacksCarry(e, e');
  }

  lemma ResponseGone(e: Engine, j: nat, e': Engine)
    requires Ledger(e) && Callbacks(e) && j < |e.responses|
    requires e' == e.(responses := CancelAt(e.responses, j).0, destroyed := e'.destroyed,
                      cancelled := e.cancelled + {e.responses[j].token})
    ensures Callbacks(e')
  {
    hide Ledger, Callbacks, CancelAt, CalledBack;
    var cmd := e.responses[j];
    QueuedApart(e, cmd);
    forall d | Queued(e', d)
      ensures exists c :: Queued(e, c) && c.token == d.token && (d.func ==> c.func)
      ensures d.token == cmd.token ==> !d.func
    {
      Apart(e, d, j);
      if d in e'.responses {
        CancelAtQueue(e.responses, j, d);
      }
      assert Queued(e, if d.token == cmd.token then cmd else d);
    }
    CallbacksBounds(e);
    CallbacksCarry(e, e');
  }

  lemma CallbacksBounds(e: Engine)
    requires Callbacks(e)
    ensures forall t :: t in e.cancelled ==> t < e.nextToken
  {
  }

  lemma CancelAllKeepsCallbacks(e: Engine)
    requires Shape(e) && Ledger(e) && Callbacks(e)
    ensures Callbacks(CancelAllStep(e))
  {
    var e' := CancelAllStep(e);
    CancelLoopKeepsHead(e.requests);
    CancelLoopKeepsHead(e.responses);
    hide CancelLoop, Ledger, CalledBack;
    forall t | t in e'.cancelled && t !in e.cancelled
      ensures t < e.nextToken && !CalledBack(e, t)
    {
      var k :| 0 <= k < |Toks(e.requests) + Toks(e.responses)| && (Toks(e.requests) + Toks(e.responses))[k] == t;
      QueuedApart(e, if k < |e.requests| then e.requests[k] else e.responses[k - |e.requests|]);
    }
    forall d | Queued(e', d)
      ensures !d.func && exists c :: Queued(e, c) && c.token == d.token
    {
      assert d == e.requests[0].(func := false) && Queued(e, e.requests[0]);
    }
    CallbacksCarry(e, e');
  }

  lemma WritableKeepsCallbacks(e: Engine, io: Io)
    requires Callbacks(e)
    ensures Callbacks(WritableStep(e, io))
  {
    var e' := WritableStep(e, io);
    WritableFrame(e, io);
    hide WritableStep, Callbacks, CalledBack;
    forall d | Queued(e', d)
      ensures exists c :: Queued(e, c) && c.token == d.token && (d.func ==> c.func)
    {
      assert Queued(e, d) || (e.requests != [] && Queued(e, e.requests[0]) && d == e.requests[0].(sent := true))
             || (e.responses != [] && Queued(e, e.responses[0]) && d == e.responses[0].(sent := true));
    }
    CallbacksCarry(e, e');
  }

  lemma WritableFrame(e: Engine, io: Io)
    requires Callbacks(e)
    ensures var e' := WritableStep(e, io);
            && e'.results == e.results && e'.nextToken == e.nextToken && e'.phase == e.phase
            && e'.cancelled == e.cancelled && forall t <- e.cancelled :: t < e.nextToken
    ensures forall d :: Queued(WritableStep(e, io), d) ==>
              || Queued(e, d)
              || (e.requests != [] && d == e.requests[0].(sent := true))
              || (e.responses != [] && d == e.responses[0].(sent := true))
  {
  }

  /** Taking the head off the request queue and running its callback. */
  lemma HeadCalledBack(e: Engine, e': Engine, status: byte)
    requires Ledger(e) && Callbacks(e) && e.phase.Idle? && e.requests != []
    requires e'.requests == e.requests[1..] && e'.responses == e.responses
    requires e'.nextToken == e.nextToken && e'.cancelled == e.cancelled
    requires !e'.phase.Idle? && e'.phase.command == e.requests[0]
    requires e'.results == CallBack(e, e.requests[0], status)
    ensures Callbacks(e')
  {
    var cmd := e.requests[0];
    assert Queued(e, cmd);
    Apart(e, cmd, 0);
    CalledBackExtends(e, e', cmd, status);
    hide Ledger;
    forall d | d in e'.requests || d in e'.responses
      ensures !CalledBack(e', d.token) && (d.token in e'.cancelled ==> !d.func)
    {
      assert e.requests[..0] + e.requests[1..] == e.requests[1..];
      Apart(e, d, 0);
      assert Queued(e, d);
    }
    assert forall i :: 0 <= i < |e.results| ==> CalledBack(e, e.results[i].token);
  }

  lemma CalledBackExtends(e: Engine, e': Engine, cmd: Command, status: byte)
    requires e'.results == CallBack(e, cmd, status)
    ensures forall t :: CalledBack(e', t) <==> CalledBack(e, t) || (cmd.func && t == cmd.token)
  {
    forall t
      ensures CalledBack(e', t) <==> CalledBack(e, t) || (cmd.func && t == cmd.token)
    {
      if CalledBack(e, t) {
        var i :| 0 <= i < |e.results| && e.results[i].token == t;
        assert e'.results[i].token == t;
      }
      if cmd.func && t == cmd.token {
        assert e'.results[|e.results|].token == t;
      }
    }
  }

  lemma DispatchKeepsCallbacks(e: Engine, s: Step)
    requires Ledger(e) && Callbacks(e) && Enabled(e, s)
    requires s.Receive? || s.ReceiveDone? || s.Expire? || s.ExpireNext?
    ensures Callbacks(Next(e, s))
  {
    var e' := Next(e, s);
    var start := if e.phase.Idle? then e else Between(e);
    if !e.phase.Idle? {
      BetweenKeepsLedger(e);
      CallbacksCarry(e, Between(e));
    }
    if e'.phase.Idle? {
      CallbacksCarry(start, e');
    } else {
      HeadCalledBack(start, e', if s.Receive? then Status(e.requests[0], s.received, s.error)
                                else if s.Expire? then ATT_ECODE_TIMEOUT else ATT_ECODE_ABORTED);
    }
  }

  /** Every disciplined step keeps the shape of the queues, the timer, the ledger and the callback rules, whatever
      the peer sends. */
  lemma StepKeepsInv(e: Engine, s: Step)
    requires Inv(e) && Enabled(e, s) && Disciplined(e, s)
    ensures Inv(Next(e, s))
  {
    hide Shape, Timed, Sequential, Ledger, Callbacks, SendStep, CancelStep, CancelAllStep, WritableStep, ReceiveStep,
         ReceiveDoneStep, ExpireStep, ExpireNextStep, Disciplined;
    match s
    case Send(id, opcode, func) =>
      SendKeepsShape(e, id, opcode, func);
      SendKeepsLedger(e, id, opcode, func);
      SendKeepsCallbacks(e, id, opcode, func);
    case Cancel(id) =>
      CancelKeepsShape(e, id);
      CancelKeepsLedger(e, id);
      CancelKeepsCallbacks(e, id);
    case CancelAll =>
      CancelAllKeepsShape(e);
      CancelAllKeepsLedger(e);
      CancelAllKeepsCallbacks(e);
    case Writable(io) =>
      WritableKeepsShape(e, io);
      WritableKeepsLedger(e, io);
      WritableKeepsCallbacks(e, io);
    case _ =>
      DispatchKeepsShape(e, s);
      DispatchKeepsLedger(e, s);
      DispatchKeepsCallbacks(e, s);
  }

  /** It keeps to one request at a time exactly when the peer conforms. */
  lemma StepKeepsSequential(e: Engine, s: Step)
    requires Inv(e) && Sequential(e) && Enabled(e, s) && Disciplined(e, s)
    ensures Sequential(Next(e, s)) <==> Conforming(e, s)
  {
    hide Shape, Timed, Sequential, Ledger, Callbacks, SendStep, CancelStep, CancelAllStep, WritableStep, ReceiveStep,
         ReceiveDoneStep, ExpireStep, ExpireNextStep, Disciplined;
    match s
    case Send(id, opcode, func) => SendKeepsShape(e, id, opcode, func);
    case Cancel(id) => CancelKeepsShape(e, id);
    case CancelAll => CancelAllKeepsShape(e);
    case Writable(io) => WritableKeepsShape(e, io);
    case _ => DispatchKeepsShape(e, s);
  }

  // Wake-ups

  /** A request put before a head that was written waits without a watch, unless one happens to be armed. */
  lemma SendAwakeExactly(e: Engine, id: uint32, opcode: byte, func: bool)
    requires Shape(e) && Awake(e)
    ensures Awake(SendStep(e, id, opcode, func)) <==>
              Disciplined(e, Send(id, opcode, func)) || e.writeWatch || Ending(e)
  {
    hide ResponsesOk, Opcode2Expected, IsResponse;
  }

  /** Dropping the watch loses a wake-up exactly when the write fails with something to write. */
  lemma WritableAwakeExactly(e: Engine, io: Io)
    requires Shape(e) && Awake(e) && Enabled(e, Writable(io))
    ensures Awake(WritableStep(e, io)) <==> io == Ready || Ending(e) || !Unwritten(e)
  {
    hide IsResponse, Opcode2Expected;
  }

  lemma CancelKeepsAwake(e: Engine, id: uint32)
    requires Shape(e) && Awake(e)
    ensures Awake(CancelStep(e, id))
  {
    hide IsResponse, Opcode2Expected;
  }

  lemma CancelAllKeepsAwake(e: Engine)
    requires Shape(e) && Awake(e)
    ensures Awake(CancelAllStep(e))
  {
    CancelLoopKeepsHead(e.requests);
    CancelLoopKeepsHead(e.responses);
    hide CancelLoop, IsResponse, Opcode2Expected;
  }

  lemma StepKeepsAwake(e: Engine, s: Step)
    requires Shape(e) && Awake(e) && Enabled(e, s) && Disciplined(e, s)
    requires s.Writable? ==> s.writeIo == Ready
    ensures Awake(Next(e, s))
  {
    hide Shape, SendStep, CancelStep, CancelAllStep, WritableStep, CallBack, Status, IsResponse;
    match s
    case Send(id, opcode, func) => SendAwakeExactly(e, id, opcode, func);
    case Cancel(id) => CancelKeepsAwake(e, id);
    case CancelAll => CancelAllKeepsAwake(e);
    case Writable(io) => WritableAwakeExactly(e, io);
    case _ =>
  }

  // Runs

  /** A sequence of steps each of which is enabled and disciplined when it comes. */
  predicate Allowed(e: Engine, steps: seq<Step>)
    decreases |steps|
  {
    steps == [] || (Enabled(e, steps[0]) && Disciplined(e, steps[0]) && Allowed(Next(e, steps[0]), steps[1..]))
  }

  function Run(e: Engine, steps: seq<Step>): Engine
    requires Allowed(e, steps)
    decreases |steps|
  {
    if steps == [] then e else Run(Next(e, steps[0]), steps[1..])
  }

  lemma {:induction false} RunKeepsInv(e: Engine, steps: seq<Step>)
    requires Inv(e) && Allowed(e, steps)
    ensures Inv(Run(e, steps))
    decreases |steps|
  {
    if steps != [] {
      hide Inv;
      StepKeepsInv(e, steps[0]);
      RunKeepsInv(Next(e, steps[0]), steps[1..]);
    }
  }

  lemma {:induction false} RunKeepsAwake(e: Engine, steps: seq<Step>)
    requires Inv(e) && Awake(e) && Allowed(e, steps)
    requires forall s :: s in steps && s.Writable? ==> s.writeIo == Ready
    ensures Awake(Run(e, steps))
    decreases |steps|
  {
    if steps != [] {
      assert steps[0] in steps && Shape(e);
      hide Inv, Awake, Shape;
      StepKeepsAwake(e, steps[0]);
      StepKeepsInv(e, steps[0]);
      RunKeepsAwake(Next(e, steps[0]), steps[1..]);
    }
  }

  /** The peer conforms at every step of the run. */
  predicate ConformingRun(e: Engine, steps: seq<Step>)
    requires Allowed(e, steps)
    decreases |steps|
  {
    steps == [] || (Conforming(e, steps[0]) && ConformingRun(Next(e, steps[0]), steps[1..]))
  }

  lemma {:induction false} RunKeepsSequential(e: Engine, steps: seq<Step>)
    requires Inv(e) && Sequential(e) && Allowed(e, steps) && ConformingRun(e, steps)
    ensures Sequential(Run(e, steps))
    decreases |steps|
  {
    if steps != [] {
      hide Inv, Sequential, Conforming;
      StepKeepsInv(e, steps[0]);
      StepKeepsSequential(e, steps[0]);
      RunKeepsSequential(Next(e, steps[0]), steps[1..]);
    }
  }

  lemma InitialInv()
    ensures Inv(INITIAL) && Sequential(INITIAL) && Awake(INITIAL)
  {
    assert Toks([]) == [];
    forall t: nat
      ensures Places(INITIAL, t) == 0
    {
      TimesNone(t);
    }
  }

  /** No lost wake-up: in every run without write errors, whatever is cancelled, sent from callbacks or answered,
      a queued response or an unwritten head request of a live engine has the write watch armed, except while a
      callback runs whose dispatch will arm it. */
  lemma NoLostWakeup(steps: seq<Step>)
    requires Allowed(INITIAL, steps)
    requires forall s :: s in steps && s.Writable? ==> s.writeIo == Ready
    ensures var e := Run(INITIAL, steps);
            && (!e.stale && e.phase.Idle? && Unwritten(e) ==> e.writeWatch)
            && (e.phase.Handling? && Unwritten(e) ==> ReceiveDoneStep(e).writeWatch)
  {
    InitialInv();
    RunKeepsInv(INITIAL, steps);
    RunKeepsAwake(INITIAL, steps);
    RunKeepsSettled(INITIAL, steps);
  }

  /** A stale engine runs no callback, and the timer that made it stale does not come back. */
  predicate Settled(e: Engine) {
    (e.stale ==> e.phase.Idle?) && (Ending(e) ==> !e.timeoutWatch)
  }

  lemma StepKeepsSettled(e: Engine, s: Step)
    requires Settled(e) && Enabled(e, s)
    ensures Settled(Next(e, s))
    ensures e.stale ==>
              && Next(e, s).stale && Next(e, s).nextToken == e.nextToken
              && Next(e, s).onAir == e.onAir && Next(e, s).results == e.results && Next(e, s).written == e.written
  {
    hide CancelLoop, CancelAt, IsResponse, Opcode2Expected, CallBack, Status, KeptQueue, Find, Toks;
  }

  lemma {:induction false} RunKeepsSettled(e: Engine, steps: seq<Step>)
    requires Settled(e) && Allowed(e, steps)
    ensures Settled(Run(e, steps))
    decreases |steps|
  {
    if steps != [] {
      hide Settled, Next, Enabled;
      StepKeepsSettled(e, steps[0]);
      RunKeepsSettled(Next(e, steps[0]), steps[1..]);
    }
  }

  /** The sequential protocol: in every run with a conforming peer at most one request is outstanding, namely the one
      at the head of the queue, and the timer is running exactly then. */
  lemma OneRequestAtATime(steps: seq<Step>)
    requires Allowed(INITIAL, steps) && ConformingRun(INITIAL, steps)
    ensures var e := Run(INITIAL, steps);
            !Ending(e) ==> && |e.onAir| <= 1
                           && (e.onAir != [] <==> HeadSent(e)) && (e.timeoutWatch <==> HeadSent(e))
                           && (HeadSent(e) ==> e.onAir[0].token == e.requests[0].token)
  {
    InitialInv();
    RunKeepsInv(INITIAL, steps);
    RunKeepsSequential(INITIAL, steps);
  }

  // The discipline of gatt.c

  /** While a callback runs no queued request is written, so anything may be put before the head. */
  lemma CallbacksAreDisciplined(e: Engine, s: Step)
    requires Inv(e) && !e.phase.Idle?
    ensures Disciplined(e, s) && !HeadSent(e)
  {
  }

  /** A request is put before the head from callbacks only: in gatt.c the procedures that go on under the id of their
      first request do so in the callback for its response. */
  predicate FromCallbacks(e: Engine, steps: seq<Step>)
    decreases |steps|
  {
    steps == [] || (&& Enabled(e, steps[0]) && (steps[0].Send? && steps[0].id != 0 ==> !e.phase.Idle?)
                    && FromCallbacks(Next(e, steps[0]), steps[1..]))
  }

  /** Such callers keep the discipline, in every run and whatever the peer sends. */
  lemma {:induction false} CallersAreDisciplined(e: Engine, steps: seq<Step>)
    requires Inv(e) && FromCallbacks(e, steps)
    ensures Allowed(e, steps)
    decreases |steps|
  {
    if steps != [] {
      if !e.phase.Idle? {
        CallbacksAreDisciplined(e, steps[0]);
      }
      hide Inv;
      StepKeepsInv(e, steps[0]);
      CallersAreDisciplined(Next(e, steps[0]), steps[1..]);
    }
  }

  /** What the engine is for, with callers like those of gatt.c: with a conforming peer at most one request is
      outstanding, the one at the head of the queue; and without write errors nothing waits for a watch that is not
      armed. */
  lemma CallersOfTheEngine(steps: seq<Step>)
    requires FromCallbacks(INITIAL, steps)
    ensures Allowed(INITIAL, steps)
    ensures var e := Run(INITIAL, steps);
            && (ConformingRun(INITIAL, steps) && !Ending(e) ==>
                  |e.onAir| <= 1 && (e.onAir != [] <==> HeadSent(e)) && (e.timeoutWatch <==> HeadSent(e)))
            && ((forall s <- steps :: s.Writable? ==> s.writeIo == Ready) ==>
                  !e.stale && e.phase.Idle? && Unwritten(e) ==> e.writeWatch)
  {
    InitialInv();
    CallersAreDisciplined(INITIAL, steps);
    if ConformingRun(INITIAL, steps) {
      OneRequestAtATime(steps);
    }
    if forall s <- steps :: s.Writable? ==> s.writeIo == Ready {
      NoLostWakeup(steps);
    }
  }

  /** What conforming is for: a response nobody asked for makes the engine give up on the request it wrote, and write
      the next one while the peer still owes an answer to the first. */
  lemma UnsolicitedExample()
    ensures var e1 := WritableStep(SendStep(INITIAL, 0, 0x0A, true), Ready);
            && var e2 := SendStep(e1, 0, 0x0C, true);
            && var s := Receive(Ready, ATT_OP_HANDLE_CNF, 0, false);
            && Enabled(e2, s) && !Conforming(e2, s)
            && var e3 := WritableStep(ReceiveDoneStep(ReceiveStep(e2, Ready, ATT_OP_HANDLE_CNF, 0, false)), Ready);
            && e3.onAir == [OnAir(0, 0x0B), OnAir(1, 0x0D)] && e3.results == [Result(0, ATT_ECODE_IO)]
  {
    var e1 := WritableStep(SendStep(INITIAL, 0, 0x0A, true), Ready);
    assert e1.onAir == [OnAir(0, 0x0B)] && e1.requests == [Command(0, 1, 0x0A, 0x0B, true, true)];
    var e2 := SendStep(e1, 0, 0x0C, true);
    assert e2.requests[1..] == [Command(1, 2, 0x0C, 0x0D, false, true)];
  }

  /** A response of a conforming peer reaches the callback of exactly the request it answers, with its own status
      and never the one for a mismatch. */
  lemma AnswerReachesItsRequest(e: Engine, received: byte, error: byte, hasEvents: bool)
    requires Inv(e) && Sequential(e) && !Ending(e) && Enabled(e, Receive(Ready, received, error, hasEvents))
    requires IsResponse(received) && e.onAir != [] && e.onAir[0].AnsweredBy(received)
    ensures var e' := ReceiveStep(e, Ready, received, error, hasEvents);
            var status := if received == ATT_OP_ERROR then error else 0;
            && e'.phase.Handling? && e'.phase.command.token == e.onAir[0].token && e'.onAir == []
            && e'.results == e.results + (if e'.phase.command.func then [Result(e.onAir[0].token, status)] else [])
            && e'.readWatch
  {
    hide IsResponse, Opcode2Expected;
  }

  /** The same in every run, from the start: while a request is outstanding, the answer to it is handed to the callback
      of that request, whatever callbacks sent and cancelled before, and every other command keeps its place. */
  lemma AnswersInEveryRun(steps: seq<Step>, received: byte, error: byte, hasEvents: bool)
    requires Allowed(INITIAL, steps) && ConformingRun(INITIAL, steps)
    requires var e := Run(INITIAL, steps);
             && !e.stale && Enabled(e, Receive(Ready, received, error, hasEvents))
             && IsResponse(received) && e.onAir != [] && e.onAir[0].AnsweredBy(received)
    ensures var e := Run(INITIAL, steps);
            var e' := ReceiveStep(e, Ready, received, error, hasEvents);
            var status := if received == ATT_OP_ERROR then error else 0;
            && e.requests != [] && e.onAir == [OnAir(e.requests[0].token, e.requests[0].expected)]
            && e'.phase.Handling? && e'.phase.command == e.requests[0]
            && e'.results == e.results + (if e.requests[0].func then [Result(e.requests[0].token, status)] else [])
            && e'.requests == e.requests[1..] && e'.responses == e.responses
            && !CalledBack(e, e.requests[0].token)
  {
    InitialInv();
    RunKeepsInv(INITIAL, steps);
    RunKeepsSequential(INITIAL, steps);
    var e := Run(INITIAL, steps);
    AnswerReachesItsRequest(e, received, error, hasEvents);
    assert e.requests[0] in e.requests;
  }

  /** What the discipline is for: a request put before one that was written gets no watch, and once some other
      command arms it there are two requests on the air. */
  lemma UndisciplinedExample()
    ensures var e1 := WritableStep(SendStep(INITIAL, 0, 0x0A, true), Ready);
            && Inv(e1) && Awake(e1) && !Disciplined(e1, Send(7, 0x0C, true))
            && var e2 := SendStep(e1, 7, 0x0C, true);
            && !Awake(e2)
            && var e3 := WritableStep(WritableStep(SendStep(e2, 0, ATT_OP_HANDLE_CNF, false), Ready), Ready);
            && |e3.onAir| == 2
  {
    InitialInv();
    StepKeepsInv(INITIAL, Send(0, 0x0A, true));
    var e0 := SendStep(INITIAL, 0, 0x0A, true);
    StepKeepsInv(e0, Writable(Ready));
    var e2 := SendStep(WritableStep(e0, Ready), 7, 0x0C, true);
    assert e2.requests[1].sent;
  }

  // Conservation

  /** In every run each command ever accepted is in exactly one place: queued, being handled, or destroyed, and
      destroyed once.  Its callback runs at most once, and not after it was cancelled. */
  lemma CommandsConserved(steps: seq<Step>, token: nat)
    requires Allowed(INITIAL, steps)
    ensures var e := Run(INITIAL, steps);
            && Places(e, token) == (if token < e.nextToken then 1 else 0)
            && Times(e.destroyed, token) <= 1
            && (forall i, j :: 0 <= i < j < |e.results| ==> e.results[i].token != e.results[j].token)
            && (forall i :: 0 <= i < |e.results| ==> e.results[i].token !in e.cancelled)
  {
    InitialInv();
    RunKeepsInv(INITIAL, steps);
  }

  /** The callbacks of a timeout: TIMEOUT for the head, ABORTED for the others, in the order of the queue. */
  function TimeoutResults(q: seq<Command>, status: byte): seq<Result> {
    if q == [] then []
    else (if q[0].func then [Result(q[0].token, status)] else []) + TimeoutResults(q[1..], ATT_ECODE_ABORTED)
  }

  /** disconnect_timeout from one of its callbacks to its end, when the callbacks leave the queue alone. */
  function ExpireRest(e: Engine): Engine
    requires e.phase.Expiring?
    decreases |e.requests|
  {
    var e' := ExpireNextStep(e);
    if e'.phase.Idle? then e' else ExpireRest(e')
  }

  lemma {:induction false} ExpireRestDrains(e: Engine)
    requires e.phase.Expiring?
    ensures var e' := ExpireRest(e);
            && e'.results == e.results + TimeoutResults(e.requests, ATT_ECODE_ABORTED)
            && e'.destroyed == e.destroyed + [e.phase.command.token] + Toks(e.requests)
            && e'.requests == [] && e'.stale && e'.phase.Idle? && e'.responses == e.responses
    decreases |e.requests|
  {
    if e.requests != [] {
      ExpireRestDrains(ExpireNextStep(e));
      assert Toks(e.requests) == [e.requests[0].token] + Toks(e.requests[1..]);
    } else {
      assert Toks(e.requests) == [];
    }
  }

  /** A timeout gives the head TIMEOUT and all later requests ABORTED, in order, each if it still has a callback;
      it destroys them all and leaves the engine stale. */
  lemma TimeoutDrains(e: Engine)
    requires Inv(e) && !Ending(e) && Enabled(e, Expire)
    ensures ExpireStep(e).phase.Expiring?
    ensures var e' := ExpireRest(ExpireStep(e));
            && e'.results == e.results + TimeoutResults(e.requests, ATT_ECODE_TIMEOUT)
            && e'.destroyed == e.destroyed + Toks(e.requests)
            && e'.requests == [] && e'.stale && e'.phase.Idle?
  {
    hide IsResponse, Opcode2Expected;
    ExpireRestDrains(ExpireStep(e));
    assert Toks(e.requests) == [e.requests[0].token] + Toks(e.requests[1..]);
  }

  /** After that, in every continuation of the run, the engine accepts, writes and delivers nothing. */
  lemma {:induction false} StaleIsFinal(e: Engine, steps: seq<Step>)
    requires e.stale && Settled(e) && Allowed(e, steps)
    ensures var e' := Run(e, steps);
            && e'.stale && e'.nextToken == e.nextToken && e'.onAir == e.onAir && e'.results == e.results
            && e'.written == e.written
    decreases |steps|
  {
    if steps != [] {
      hide Settled, Next, Enabled;
      StepKeepsSettled(e, steps[0]);
      StaleIsFinal(Next(e, steps[0]), steps[1..]);
    }
  }
}
