/** Which command each call of gattrib.c is about: what a send queues and under which id, what a cancellation takes out,
    what is written next, and that requests and responses are each written in the order they were accepted. */
module AttQueues {
  import opened Basics
  import opened AttCodes
  import opened AttEngine
  import opened AttProtocol

  // Opcodes

  /** The requests of the ATT protocol and the responses to them (Vol 3, Part F, section 3.4.8), each as (request,
      response). */
  const PAIRS: set<(byte, byte)> := {(0x02, 0x03), (0x04, 0x05), (0x06, 0x07), (0x08, 0x09), (0x0A, 0x0B), (0x0C, 0x0D),
                                     (0x0E, 0x0F), (0x10, 0x11), (0x12, 0x13), (0x16, 0x17), (0x18, 0x19), (0x1D, 0x1E)}

  predicate IsPair(request: byte, response: byte) {
    (request, response) in PAIRS
  }

  predicate HasAnswer(opcode: byte) {
    exists p <- PAIRS :: p.0 == opcode
  }

  predicate IsAnswer(opcode: byte) {
    opcode == 0x01 || exists p <- PAIRS :: p.1 == opcode
  }

  /** A request is answered by its own response, and a response is what answers some request, or the error response. */
  lemma OpcodePairs(opcode: byte)
    ensures HasAnswer(opcode) <==> Opcode2Expected(opcode) != 0
    ensures HasAnswer(opcode) ==> forall r: byte :: IsPair(opcode, r) <==> r == Opcode2Expected(opcode)
    ensures IsAnswer(opcode) <==> IsResponse(opcode)
  {
    if IsResponse(opcode) && opcode != 0x01 {
      assert (opcode - 1, opcode) in PAIRS;
    }
    if Opcode2Expected(opcode) != 0 {
      assert (opcode, opcode + 1) in PAIRS;
    }
  }

  // Sending

  /** The command an accepted send queues: an unsent one, with the id asked for or the next one. */
  ghost predicate IsNew(c: Command, e: Engine, id: uint32, opcode: byte, func: bool) {
    && c.token == e.nextToken && c.opcode == opcode && c.func == func && !c.sent
    && c.id == (if id != 0 then id else (e.nextId + 1) % 0x1_0000_0000)
    && (if HasAnswer(opcode) then IsPair(opcode, c.expected) else c.expected == 0)
  }

  /** A send queues one command: a response behind the other responses, a request behind the other requests, or before
      them when it comes with an id.  A stale engine accepts nothing. */
  lemma SendQueues(e: Engine, id: uint32, opcode: byte, func: bool)
    ensures var e' := SendStep(e, id, opcode, func);
            if e.stale then e' == e
            else exists c :: && IsNew(c, e, id, opcode, func)
                             && (if IsAnswer(opcode)
                                 then e'.responses == e.responses + [c] && e'.requests == e.requests
                                 else && e'.responses == e.responses
                                      && e'.requests == if id == 0 then e.requests + [c] else [c] + e.requests)
                             && e'.nextId == (if id == 0 then c.id else e.nextId) && e'.nextToken == e.nextToken + 1
                             && e' == e.(requests := e'.requests, responses := e'.responses, nextId := e'.nextId,
                                         nextToken := e'.nextToken, writeWatch := e'.writeWatch)
  {
    if !e.stale {
      OpcodePairs(opcode);
      hide IsResponse, Opcode2Expected, IsPair, HasAnswer, IsAnswer;
      var nextId := if id != 0 then e.nextId else (e.nextId + 1) % 0x1_0000_0000;
      var c := Command(e.nextToken, if id != 0 then id else nextId, opcode, Opcode2Expected(opcode), false, func);
      assert IsNew(c, e, id, opcode, func);
    }
  }

  /** The id a send without one is answered: that of the command it queued. */
  function IdGiven(e: Engine, opcode: byte, func: bool): uint32
    requires !e.stale
  {
    var e' := SendStep(e, 0, opcode, func);
    if |e'.responses| > |e.responses| then e'.responses[|e.responses|].id else e'.requests[|e.requests|].id
  }

  /** The ids given out in a run. */
  ghost function IdsGiven(e: Engine, steps: seq<Step>): seq<uint32>
    requires Allowed(e, steps)
    decreases |steps|
  {
    if steps == [] then []
    else
      var rest := IdsGiven(Next(e, steps[0]), steps[1..]);
      var s := steps[0];
      if s.Send? && s.id == 0 && !e.stale then [IdGiven(e, s.opcode, s.func)] + rest else rest
  }

  /** The ids are those after a counter at n. */
  ghost predicate CountUp(ids: seq<uint32>, n: nat) {
    forall k :: 0 <= k < |ids| ==> ids[k] == (n + k + 1) % 0x1_0000_0000
  }

  lemma {:induction false} IdsCountUp(e: Engine, steps: seq<Step>)
    requires Allowed(e, steps)
    ensures CountUp(IdsGiven(e, steps), e.nextId)
    decreases |steps|
  {
    if steps != [] {
      IdsGivenFirst(e, steps);
      NextIdAfter(e, steps[0]);
      hide Next, IdGiven, Enabled, Disciplined, IdsGiven, CountUp;
      IdsCountUp(Next(e, steps[0]), steps[1..]);
      OneMore(IdsGiven(Next(e, steps[0]), steps[1..]), e.nextId);
    } else {
      assert IdsGiven(e, steps) == [];
    }
  }

  lemma OneMore(rest: seq<uint32>, n: uint32)
    ensures [] + rest == rest
    ensures var id: uint32 := (n + 1) % 0x1_0000_0000;
            CountUp(rest, id) ==> CountUp([id] + rest, n)
  {
    var id: uint32 := (n + 1) % 0x1_0000_0000;
    if CountUp(rest, id) {
      forall k | 0 < k <= |rest|
        ensures ([id] + rest)[k] == (n + k + 1) % 0x1_0000_0000
      {
        AddModulo(n, k);
      }
    }
  }

  lemma IdsGivenFirst(e: Engine, steps: seq<Step>)
    requires Allowed(e, steps) && steps != []
    ensures var s := steps[0];
            IdsGiven(e, steps) == (if s.Send? && s.id == 0 && !e.stale then [IdGiven(e, s.opcode, s.func)] else [])
                                  + IdsGiven(Next(e, s), steps[1..])
  {
    hide Next, IdGiven, Enabled, Disciplined;
  }

  lemma NextIdAfter(e: Engine, s: Step)
    requires Enabled(e, s)
    ensures Next(e, s).nextId == if s.Send? && s.id == 0 && !e.stale then (e.nextId + 1) % 0x1_0000_0000 else e.nextId
    ensures s.Send? && s.id == 0 && !e.stale ==> IdGiven(e, s.opcode, s.func) == Next(e, s).nextId
  {
    hide CancelLoop, CancelAt, IsResponse, Opcode2Expected, CallBack, Status, KeptQueue, Find, Toks, StillOnAir;
  }

  lemma AddModulo(a: nat, k: nat)
    ensures ((a + 1) % 0x1_0000_0000 + k) % 0x1_0000_0000 == (a + k + 1) % 0x1_0000_0000
  {
  }

  lemma DifferModulo(a: nat, i: nat, j: nat)
    requires i < j < i + 0x1_0000_0000
    ensures (a + i) % 0x1_0000_0000 != (a + j) % 0x1_0000_0000
  {
  }

  /** In every run two ids given out fewer than 2^32 sends apart differ; and a send is answered 0, the code for failure,
      exactly every 2^32 sends. */
  lemma IdsAreDistinct(steps: seq<Step>, i: nat, j: nat)
    requires Allowed(INITIAL, steps) && i < j < |IdsGiven(INITIAL, steps)|
    ensures j - i < 0x1_0000_0000 ==> IdsGiven(INITIAL, steps)[i] != IdsGiven(INITIAL, steps)[j]
    ensures IdsGiven(INITIAL, steps)[j] == 0 <==> (j + 1) % 0x1_0000_0000 == 0
  {
    IdsCountUp(INITIAL, steps);
    if j - i < 0x1_0000_0000 {
      DifferModulo(1, i, j);
    }
  }

  // Cancelling

  /** Position i holds the first command with this id. */
  ghost predicate FirstWith(q: seq<Command>, id: uint32, i: int) {
    0 <= i < |q| && q[i].id == id && forall j :: 0 <= j < i ==> q[j].id != id
  }

  ghost predicate NoneWith(q: seq<Command>, id: uint32) {
    forall c <- q :: c.id != id
  }

  /** The commands with other ids, in order. */
  function Others(q: seq<Command>, id: uint32): seq<Command> {
    if q == [] then [] else (if q[0].id == id then [] else [q[0]]) + Others(q[1..], id)
  }

  /** What a cancellation of the command at position i leaves of a queue: the command is gone, or it is a written head
      and stays without its callback. */
  ghost predicate TakenOut(q: seq<Command>, i: int, later: seq<Command>) {
    && 0 <= i < |q|
    && if i == 0 && q[0].sent then
         && |later| == |q| && later[0] == q[0].(func := false)
         && forall j :: 0 < j < |q| ==> later[j] == q[j]
       else
         && |later| == |q| - 1
         && forall j :: 0 <= j < |later| ==> later[j] == q[if j < i then j else j + 1]
  }

  /** A cancellation is about the first queued command with the id, in the requests, or in the responses if no request
      has it: that one is cancelled and taken out, and destroyed unless it is a written head.  Every command with
      another id is still there, unchanged and in order; and without a command with the id nothing happens. */
  lemma CancelTakes(e: Engine, id: uint32)
    ensures var e' := CancelStep(e, id);
            && (forall i :: FirstWith(e.requests, id, i) ==>
                  && TakenOut(e.requests, i, e'.requests) && e'.responses == e.responses
                  && Cancelled(e, e', e.requests[i], i == 0))
            && (NoneWith(e.requests, id) ==> forall i :: FirstWith(e.responses, id, i) ==>
                  && TakenOut(e.responses, i, e'.responses) && e'.requests == e.requests
                  && Cancelled(e, e', e.responses[i], i == 0))
            && (NoneWith(e.requests, id) && NoneWith(e.responses, id) ==> e' == e)
            && Others(e'.requests, id) == Others(e.requests, id)
            && Others(e'.responses, id) == Others(e.responses, id)
  {
    FoundFirst(e.requests, id);
    FoundFirst(e.responses, id);
    var i, j := Find(e.requests, id), Find(e.responses, id);
    hide Find;
    if i < |e.requests| {
      OthersStay(e.requests, i, id);
    } else if j < |e.responses| {
      OthersStay(e.responses, j, id);
    }
  }

  lemma FoundFirst(q: seq<Command>, id: uint32)
    ensures forall i :: FirstWith(q, id, i) <==> i == Find(q, id) < |q|
    ensures NoneWith(q, id) <==> Find(q, id) == |q|
  {
    var k := Find(q, id);
    if k < |q| {
      assert q[k] in q;
    }
  }

  /** Exactly this command was cancelled, and it was destroyed unless it is a written head. */
  ghost predicate Cancelled(e: Engine, e': Engine, c: Command, head: bool) {
    && e'.cancelled == e.cancelled + {c.token}
    && e'.destroyed == e.destroyed + (if head && c.sent then [] else [c.token])
    && e' == e.(requests := e'.requests, responses := e'.responses, destroyed := e'.destroyed,
                cancelled := e'.cancelled)
  }

  lemma OthersStay(q: seq<Command>, i: nat, id: uint32)
    requires i < |q| && q[i].id == id
    ensures var later := CancelAt(q, i).0;
            TakenOut(q, i, later) && Others(later, id) == Others(q, id)
  {
    if i == 0 && q[0].sent {
      assert q[0 := q[0].(func := false)][1..] == q[1..];
    } else {
      OthersWithout(q, i, id);
    }
  }

  lemma {:induction false} OthersWithout(q: seq<Command>, i: nat, id: uint32)
    requires i < |q| && q[i].id == id
    ensures Others(q[..i] + q[i + 1..], id) == Others(q, id)
    decreases |q|
  {
    var later := q[..i] + q[i + 1..];
    if i > 0 {
      OthersWithout(q[1..], i - 1, id);
      assert later[1..] == q[1..][..i - 1] + q[1..][i..];
    } else {
      assert later == q[1..];
    }
  }

  /** Cancelling everything leaves at most a written head without its callback, and no response. */
  lemma CancelAllTakes(e: Engine)
    requires Shape(e)
    ensures var e' := CancelAllStep(e);
            && e'.requests == (if HeadSent(e) then [e.requests[0].(func := false)] else [])
            && e'.responses == []
            && e'.destroyed == e.destroyed + Toks(if HeadSent(e) then e.requests[1..] else e.requests)
                               + Toks(e.responses)
            && e'.cancelled == e.cancelled + (set c | c in e.requests :: c.token)
                               + (set c | c in e.responses :: c.token)
            && e' == e.(requests := e'.requests, responses := e'.responses, destroyed := e'.destroyed,
                        cancelled := e'.cancelled)
  {
    CancelLoopKeepsHead(e.requests);
    CancelLoopKeepsHead(e.responses);
    hide CancelLoop, IsResponse, Opcode2Expected;
    TokenSet(e.requests);
    TokenSet(e.responses);
    assert forall t :: t in Toks(e.requests) + Toks(e.responses) <==> t in Toks(e.requests) || t in Toks(e.responses);
  }

  lemma TokenSet(q: seq<Command>)
    ensures (set c | c in q :: c.token) == set t | t in Toks(q)
  {
    forall t | t in Toks(q)
      ensures t in set c | c in q :: c.token
    {
      var i :| 0 <= i < |Toks(q)| && Toks(q)[i] == t;
      assert q[i] in q;
    }
    forall c | c in q
      ensures c.token in Toks(q)
    {
      var i :| 0 <= i < |q| && q[i] == c;
      assert Toks(q)[i] == c.token;
    }
  }

  // Writing

  /** What is written when the channel is ready: the first response, or, if there is none, the head request unless it
      was written already.  A command nothing answers is destroyed at once, without a callback; a request stays at the
      head, with the timer running. */
  lemma WritesNext(e: Engine)
    requires Shape(e) && !e.stale
    ensures var e' := WritableStep(e, Ready);
            && (if e.responses != [] then
                  && e'.written == e.written + [Written(e.responses[0].token, e.responses[0].opcode)]
                  && e'.responses == e.responses[1..] && e'.requests == e.requests
                  && e'.destroyed == e.destroyed + [e.responses[0].token]
                else if e.requests != [] && !e.requests[0].sent then
                  var c := e.requests[0];
                  && e'.written == e.written + [Written(c.token, c.opcode)]
                  && if HasAnswer(c.opcode) then
                       && e'.requests == [c.(sent := true)] + e.requests[1..] && e'.timeoutWatch
                       && e'.destroyed == e.destroyed
                     else
                       && e'.requests == e.requests[1..] && e'.destroyed == e.destroyed + [c.token]
                else e'.written == e.written && e'.requests == e.requests && e'.destroyed == e.destroyed)
            && e'.results == e.results && e'.cancelled == e.cancelled
  {
    if e.responses == [] && e.requests != [] {
      OpcodePairs(e.requests[0].opcode);
    }
    hide Opcode2Expected, HasAnswer, IsResponse;
  }

  /** A write that fails, a hang-up, and an engine that is stale write nothing and change no queue. */
  lemma WritesNothing(e: Engine, io: Io)
    requires e.stale || io != Ready
    ensures WritableStep(e, io) == e.(writeWatch := false)
  {
  }

  /** The read watch goes with a hang-up or a stale engine, and with a response when no request is queued and no event
      is registered; nothing else ends it. */
  lemma ReadWatchExactly(e: Engine, io: Io, received: byte, error: byte, hasEvents: bool)
    requires e.readWatch
    ensures ReceiveStep(e, io, received, error, hasEvents).readWatch <==>
            && !e.stale && io != HangUp
            && (io == Ready && IsAnswer(received) && e.requests == [] ==> hasEvents)
  {
    OpcodePairs(received);
    hide IsResponse, Opcode2Expected, IsAnswer;
  }

  /** A response takes the head request off the queue, whichever it is, and its callback gets 0 for the response that
      answers it, the error of an error response, and 0x80 for any other; anything else from the peer changes
      nothing. */
  lemma ResponseTakesHead(e: Engine, received: byte, error: byte, hasEvents: bool)
    requires Shape(e) && !e.stale
    ensures var e' := ReceiveStep(e, Ready, received, error, hasEvents);
            if !IsAnswer(received) then e' == e
            else if e.requests == [] then e' == e.(readWatch := hasEvents, timeoutWatch := false, onAir := e'.onAir)
            else
              var c := e.requests[0];
              var status := if received == 0x01 then error else if IsPair(c.opcode, received) then 0 else 0x80;
              e' == e.(requests := e.requests[1..], timeoutWatch := false, onAir := e'.onAir,
                       phase := Handling(c, |e.requests| > 1 || e.responses != []),
                       results := e.results + if c.func then [Result(c.token, status)] else [])
  {
    OpcodePairs(received);
    if e.requests != [] {
      OpcodePairs(e.requests[0].opcode);
      assert e.requests[0].expected == Opcode2Expected(e.requests[0].opcode);
    }
    hide Opcode2Expected, HasAnswer, IsAnswer, IsPair, StillOnAir, Shape;
  }

  /** The timeout calls back the head request with 0x81 and every later one with 0x82, and marks the engine stale when
      none is left. */
  lemma TimeoutCallsBack(e: Engine)
    ensures ExpireStep(e) == if e.requests == [] then e.(timeoutWatch := false, stale := true)
                             else CalledNext(e.(timeoutWatch := false), 0x81)
    ensures e.phase.Expiring? ==>
              var rest := e.(destroyed := e.destroyed + [e.phase.command.token]);
              ExpireNextStep(e) == if e.requests == [] then rest.(phase := Idle, stale := true)
                                   else CalledNext(rest, 0x82)
  {
  }

  function CalledNext(e: Engine, status: byte): Engine
    requires e.requests != []
  {
    var c := e.requests[0];
    e.(requests := e.requests[1..], phase := Expiring(c),
       results := e.results + if c.func then [Result(c.token, status)] else [])
  }

  // Order

  /** The requests, or the responses, among the commands written, in order. */
  function OfKind(w: seq<Written>, response: bool): seq<nat> {
    if w == [] then []
    else
      OfKind(w[..|w| - 1], response)
      + if IsResponse(w[|w| - 1].opcode) == response then [w[|w| - 1].token] else []
  }

  function Unsent(q: seq<Command>): seq<Command> {
    if q != [] && q[0].sent then q[1..] else q
  }

  /** The requests, or the responses, written and still to be written, in order. */
  function Line(e: Engine, response: bool): seq<nat> {
    OfKind(e.written, response) + Toks(if response then e.responses else Unsent(e.requests))
  }

  ghost predicate Increasing(s: seq<nat>) {
    forall i, j :: 0 <= i < j < |s| ==> s[i] < s[j]
  }

  ghost predicate Below(s: seq<nat>, n: nat) {
    forall i :: 0 <= i < |s| ==> s[i] < n
  }

  /** Tokens are numbered in the order of acceptance. */
  ghost predicate Ordered(e: Engine, response: bool) {
    Increasing(Line(e, response)) && Below(Line(e, response), e.nextToken)
  }

  /** A request with an id goes to the front. */
  predicate ToTheFront(s: Step) {
    s.Send? && s.id != 0 && !IsResponse(s.opcode)
  }

  /** A line of which nothing, one place or a tail is left out, or which grows by the newest command. */
  ghost predicate Follows(before: seq<nat>, after: seq<nat>, token: nat) {
    || after == before
    || after == before + [token]
    || (exists i :: 0 <= i < |before| && after == before[..i] + before[i + 1..])
    || after < before
  }

  lemma StaysIncreasing(before: seq<nat>, after: seq<nat>, n: nat)
    requires Increasing(before) && Below(before, n) && Follows(before, after, n)
    ensures Increasing(after) && Below(after, n + 1) && (|after| <= |before| ==> Below(after, n))
  {
    if |after| < |before| && !(after < before) {
      var i :| 0 <= i < |before| && after == before[..i] + before[i + 1..];
      OneLess(before, after, i, n);
    }
  }

  lemma OneLess(before: seq<nat>, after: seq<nat>, i: nat, n: nat)
    requires Increasing(before) && Below(before, n) && i < |before| && after == before[..i] + before[i + 1..]
    ensures Increasing(after) && Below(after, n)
  {
    assert forall j :: 0 <= j < |after| ==> after[j] == before[if j < i then j else j + 1];
  }

  lemma SendOrders(e: Engine, id: uint32, opcode: byte, func: bool, response: bool)
    requires response || !ToTheFront(Send(id, opcode, func))
    ensures Line(SendStep(e, id, opcode, func), response)
         == Line(e, response) + (if !e.stale && IsResponse(opcode) == response then [e.nextToken] else [])
  {
    hide Opcode2Expected, OfKind, Toks;
    if !e.stale {
      OpcodePairs(opcode);
      SendQueues(e, id, opcode, func);
      hide SendStep, IsResponse, IsPair, HasAnswer, IsAnswer;
      var q := if response then e.responses else e.requests;
      var c :| && IsNew(c, e, id, opcode, func)
               && (IsResponse(opcode) == response ==>
                     (if response then SendStep(e, id, opcode, func).responses
                      else SendStep(e, id, opcode, func).requests) == q + [c]);
      ToksLast(q, c);
      UnsentLast(q, c);
    }
  }

  lemma UnsentLast(q: seq<Command>, c: Command)
    requires !c.sent
    ensures Unsent(q + [c]) == Unsent(q) + [c] && Toks(Unsent(q) + [c]) == Toks(Unsent(q)) + [c.token]
  {
  }

  lemma ToksLast(q: seq<Command>, c: Command)
    ensures Toks(q + [c]) == Toks(q) + [c.token]
  {
  }

  lemma CancelOrders(e: Engine, id: uint32, response: bool)
    requires Shape(e)
    ensures Follows(Line(e, response), Line(CancelStep(e, id), response), e.nextToken)
    ensures |Line(CancelStep(e, id), response)| <= |Line(e, response)|
  {
    hide OfKind, Opcode2Expected, IsResponse;
    var i, j := Find(e.requests, id), Find(e.responses, id);
    if i < |e.requests| {
      if !response {
        CancelledToks(e, i);
      }
    } else if j < |e.responses| {
      if response {
        LeftOut(OfKind(e.written, response), e.responses, j);
      }
    }
  }

  lemma CancelledToks(e: Engine, i: nat)
    requires Shape(e) && i < |e.requests|
    ensures var later := e.(requests := CancelAt(e.requests, i).0);
            Follows(Line(e, false), Line(later, false), e.nextToken) && |Line(later, false)| <= |Line(e, false)|
  {
    hide OfKind, Opcode2Expected, IsResponse;
    var q, later := e.requests, CancelAt(e.requests, i).0;
    if !q[0].sent {
      LeftOut(OfKind(e.written, false), q, i);
    } else if i > 0 {
      LeftOut(OfKind(e.written, false), q[1..], i - 1);
      assert later[1..] == q[1..][..i - 1] + q[1..][i..];
    } else {
      assert later[1..] == q[1..];
    }
  }

  lemma LeftOut(a: seq<nat>, q: seq<Command>, i: nat)
    requires i < |q|
    ensures var s := a + Toks(q);
            exists k :: 0 <= k < |s| && a + Toks(q[..i] + q[i + 1..]) == s[..k] + s[k + 1..]
  {
    var s := a + Toks(q);
    var k := |a| + i;
    assert a + Toks(q[..i] + q[i + 1..]) == s[..k] + s[k + 1..];
  }

  lemma CancelAllOrders(e: Engine, response: bool)
    requires Shape(e)
    ensures Follows(Line(e, response), Line(CancelAllStep(e), response), e.nextToken)
    ensures |Line(CancelAllStep(e), response)| <= |Line(e, response)|
  {
    CancelAllTakes(e);
    hide OfKind, Opcode2Expected, IsResponse, CancelAllStep, Shape;
    var e' := CancelAllStep(e);
    assert Line(e', response) == OfKind(e.written, response);
    assert OfKind(e.written, response) == Line(e, response)[..|OfKind(e.written, response)|];
  }

  lemma WrittenLast(w: seq<Written>, c: Written, response: bool)
    ensures OfKind(w + [c], response)
         == OfKind(w, response) + if IsResponse(c.opcode) == response then [c.token] else []
  {
    assert (w + [c])[..|w|] == w;
  }

  lemma WritableOrders(e: Engine, io: Io, response: bool)
    requires Shape(e)
    ensures Line(WritableStep(e, io), response) == Line(e, response)
  {
    var e' := WritableStep(e, io);
    if e.stale || io != Ready {
      WritesNothing(e, io);
    } else {
      WritesNext(e);
      ShapeOfHeads(e);
      hide OfKind, Shape, IsResponse, WritableStep, Toks, HasAnswer;
      if e.responses != [] {
        WrittenHead(e.written, e.responses, response);
      } else if e.requests != [] && !e.requests[0].sent {
        WrittenHead(e.written, e.requests, response);
        assert Unsent(e'.requests) == e.requests[1..];
      }
    }
  }

  lemma ShapeOfHeads(e: Engine)
    requires Shape(e)
    ensures e.responses != [] ==> IsResponse(e.responses[0].opcode)
    ensures e.requests != [] ==> !IsResponse(e.requests[0].opcode)
    ensures |e.requests| > 1 ==> !e.requests[1].sent
  {
    hide IsResponse, Opcode2Expected;
  }

  lemma WrittenHead(w: seq<Written>, q: seq<Command>, response: bool)
    requires q != []
    ensures var later := OfKind(w + [Written(q[0].token, q[0].opcode)], response);
            if IsResponse(q[0].opcode) == response then later + Toks(q[1..]) == OfKind(w, response) + Toks(q)
            else later == OfKind(w, response)
  {
    hide OfKind, IsResponse;
    WrittenLast(w, Written(q[0].token, q[0].opcode), response);
    assert Toks(q) == [q[0].token] + Toks(q[1..]);
  }

  lemma DispatchFrame(e: Engine, s: Step)
    requires Enabled(e, s) && (s.Receive? || s.ReceiveDone? || s.Expire? || s.ExpireNext?)
    ensures var e' := Next(e, s);
            && e'.written == e.written && e'.responses == e.responses && e'.nextToken == e.nextToken
            && (e'.requests == e.requests || (e.requests != [] && e'.requests == e.requests[1..]))
  {
    hide Opcode2Expected, IsResponse, CallBack, Status, StillOnAir;
  }

  lemma DispatchOrders(e: Engine, s: Step, response: bool)
    requires Shape(e) && Enabled(e, s) && (s.Receive? || s.ReceiveDone? || s.Expire? || s.ExpireNext?)
    ensures Follows(Line(e, response), Line(Next(e, s), response), e.nextToken)
    ensures |Line(Next(e, s), response)| <= |Line(e, response)|
  {
    DispatchFrame(e, s);
    ShapeOfHeads(e);
    hide OfKind, Shape, IsResponse, Next, Enabled, Toks;
    var e' := Next(e, s);
    if e'.requests != e.requests && !response {
      if !e.requests[0].sent {
        LeftOut(OfKind(e.written, false), e.requests, 0);
        assert e.requests[..0] + e.requests[1..] == e.requests[1..];
      }
      assert Unsent(e'.requests) == e.requests[1..];
    }
  }

  lemma StepLine(e: Engine, s: Step, response: bool)
    requires Shape(e) && Enabled(e, s) && (response || !ToTheFront(s))
    ensures Follows(Line(e, response), Line(Next(e, s), response), e.nextToken)
    ensures |Line(Next(e, s), response)| > |Line(e, response)| ==> s.Send? && !e.stale
  {
    hide Shape, Line, IsResponse, SendStep, CancelStep, CancelAllStep, WritableStep;
    match s {
      case Send(id, opcode, func) => SendOrders(e, id, opcode, func, response);
      case Cancel(id) => CancelOrders(e, id, response);
      case CancelAll => CancelAllOrders(e, response);
      case Writable(io) => WritableOrders(e, io, response);
      case _ => DispatchOrders(e, s, response);
    }
  }

  lemma StepOrders(e: Engine, s: Step, response: bool)
    requires Shape(e) && Ordered(e, response) && Enabled(e, s) && (response || !ToTheFront(s))
    ensures Ordered(Next(e, s), response)
  {
    hide Next, Enabled, Line, ToTheFront, Shape, Follows;
    StepLine(e, s, response);
    TokensCount(e, s);
    StaysIncreasing(Line(e, response), Line(Next(e, s), response), e.nextToken);
  }

  /** The number of commands accepted goes up with a send that is accepted. */
  lemma TokensCount(e: Engine, s: Step)
    requires Enabled(e, s)
    ensures Next(e, s).nextToken == e.nextToken + if s.Send? && !e.stale then 1 else 0
  {
    hide CancelLoop, CancelAt, IsResponse, Opcode2Expected, CallBack, Status, KeptQueue, Find, Toks, StillOnAir;
  }

  lemma {:induction false} RunOrders(e: Engine, steps: seq<Step>, response: bool)
    requires Inv(e) && Ordered(e, response) && Allowed(e, steps)
    requires response || forall s <- steps :: !ToTheFront(s)
    ensures Ordered(Run(e, steps), response)
    decreases |steps|
  {
    if steps != [] {
      assert steps[0] in steps;
      assert Shape(e);
      hide Inv, Shape, Ordered, ToTheFront, Next, Enabled, Disciplined;
      StepKeepsInv(e, steps[0]);
      StepOrders(e, steps[0], response);
      RunOrders(Next(e, steps[0]), steps[1..], response);
    }
  }

  /** Responses are written in the order they were accepted, whatever else happens; and so are requests in every run in
      which none is put to the front.  Nothing is written twice. */
  lemma WrittenInOrder(steps: seq<Step>)
    requires Allowed(INITIAL, steps)
    ensures Increasing(OfKind(Run(INITIAL, steps).written, true))
    ensures (forall s <- steps :: !ToTheFront(s)) ==> Increasing(OfKind(Run(INITIAL, steps).written, false))
  {
    InitialInv();
    var e := Run(INITIAL, steps);
    RunOrders(INITIAL, steps, true);
    PrefixIncreasing(OfKind(e.written, true), Toks(e.responses));
    if forall s <- steps :: !ToTheFront(s) {
      RunOrders(INITIAL, steps, false);
      PrefixIncreasing(OfKind(e.written, false), Toks(Unsent(e.requests)));
    }
  }

  lemma PrefixIncreasing(a: seq<nat>, b: seq<nat>)
    requires Increasing(a + b)
    ensures Increasing(a)
  {
    assert forall i :: 0 <= i < |a| ==> (a + b)[i] == a[i];
  }
}
