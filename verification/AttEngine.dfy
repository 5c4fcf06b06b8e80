/** The ATT request engine of gattrib.c as a transition system.  Every step is one uninterrupted stretch of C code:
    a call of the API, a dispatch of the main loop up to the point where a callback is run, or the stretch after
    that callback.  Callbacks re-enter the API, so API steps may come between the two halves of a dispatch. */
module AttEngine {
  import opened Basics
  import opened AttCodes

  /** The requests that have a response, each numbered one below it. */
  const REQUESTS: set<byte> := {0x02, 0x04, 0x06, 0x08, 0x0A, 0x0C, 0x0E, 0x10, 0x12, 0x16, 0x18, ATT_OP_HANDLE_IND}

  /** opcode2expected: the opcode that answers this one, 0 if nothing does. */
  function Opcode2Expected(opcode: byte): byte {
    if opcode in REQUESTS then opcode + 1 else 0
  }

  predicate IsResponse(opcode: byte)
    ensures IsResponse(opcode) ==> Opcode2Expected(opcode) == 0
  {
    opcode == ATT_OP_ERROR || (opcode > 0 && opcode - 1 in REQUESTS)
  }

  /** A queued command.  The token stands for its address: no two commands ever accepted share one. */
  datatype Command = Command(token: nat, id: uint32, opcode: byte, expected: byte, sent: bool, func: bool)

  datatype Result = Result(token: nat, status: byte)

  /** A command whose bytes went to the channel. */
  datatype Written = Written(token: nat, opcode: byte)

  /** A request that was written and whose answer has not been read: known to the peer, not to the engine. */
  datatype OnAir = OnAir(token: nat, expected: byte) {
    predicate AnsweredBy(received: byte) {
      received == ATT_OP_ERROR || received == expected
    }
  }

  /** What is on the air once this response has been read: one that answers nothing retires nothing. */
  function StillOnAir(onAir: seq<OnAir>, received: byte): seq<OnAir> {
    if onAir != [] && onAir[0].AnsweredBy(received) then onAir[1..] else onAir
  }

  /** Between which stretches of code the engine is: in the main loop, in the callback of a command taken off the
      queue by received_data (wake is what the flags computed before the callback will decide), or in a callback
      of disconnect_timeout. */
  datatype Phase = Idle | Handling(command: Command, wake: bool) | Expiring(command: Command)

  datatype Engine = Engine(
    requests: seq<Command>, responses: seq<Command>,
    writeWatch: bool, readWatch: bool, timeoutWatch: bool, stale: bool, nextId: uint32,
    phase: Phase,
    nextToken: nat,           // commands accepted so far
    written: seq<Written>,
    onAir: seq<OnAir>,
    destroyed: seq<nat>,
    results: seq<Result>,     // result callbacks run
    cancelled: set<nat>)

  datatype Io = Ready | Failed | HangUp

  datatype Step =
    | Send(id: uint32, opcode: byte, func: bool)
    | Cancel(cancelId: uint32)
    | CancelAll
    | Writable(writeIo: Io)
    | Receive(readIo: Io, received: byte, error: byte, hasEvents: bool)
    | ReceiveDone
    | Expire
    | ExpireNext

  const INITIAL: Engine := Engine([], [], false, true, false, false, 0, Idle, 0, [], [], [], [], {})

  function Toks(q: seq<Command>): (t: seq<nat>)
    ensures |t| == |q|
  {
    seq(|q|, i requires 0 <= i < |q| => q[i].token)
  }

  /** g_attrib_send. */
  function SendStep(e: Engine, id: uint32, opcode: byte, func: bool): Engine {
    if e.stale then e
    else
      var nextId := if id != 0 then e.nextId else (e.nextId + 1) % 0x1_0000_0000;
      var c := Command(e.nextToken, if id != 0 then id else nextId, opcode, Opcode2Expected(opcode), false, func);
      var e' := e.(nextId := nextId, nextToken := e.nextToken + 1);
      if IsResponse(opcode) then
        e'.(responses := e.responses + [c], writeWatch := e.writeWatch || e.responses == [])
      else
        e'.(requests := if id != 0 then [c] + e.requests else e.requests + [c],
            writeWatch := e.writeWatch || e.requests == [])
  }

  /** g_queue_find_custom: the position of the first command with this id, or the length of the queue. */
  function Find(q: seq<Command>, id: uint32): (i: nat)
    ensures i <= |q| && (i < |q| ==> q[i].id == id)
    ensures forall j :: 0 <= j < i ==> q[j].id != id
  {
    if q == [] || q[0].id == id then 0 else 1 + Find(q[1..], id)
  }

  /** The queue after the command at position i was cancelled, and what was destroyed. */
  function CancelAt(q: seq<Command>, i: nat): (seq<Command>, seq<nat>)
    requires i < |q|
  {
    if i == 0 && q[0].sent then (q[0 := q[0].(func := false)], [])
    else (q[..i] + q[i + 1..], [q[i].token])
  }

  /** g_attrib_cancel. */
  function CancelStep(e: Engine, id: uint32): Engine {
    var i, j := Find(e.requests, id), Find(e.responses, id);
    if i < |e.requests| then
      var (q, gone) := CancelAt(e.requests, i);
      e.(requests := q, destroyed := e.destroyed + gone, cancelled := e.cancelled + {e.requests[i].token})
    else if j < |e.responses| then
      var (q, gone) := CancelAt(e.responses, j);
      e.(responses := q, destroyed := e.destroyed + gone, cancelled := e.cancelled + {e.responses[j].token})
    else e
  }

  /** The loop of cancel_all_per_queue: the command to be put back, and the commands destroyed in order. */
  function CancelLoop(q: seq<Command>, first: bool, head: Option<Command>): (Option<Command>, seq<nat>) {
    if q == [] then (head, [])
    else if first && q[0].sent then CancelLoop(q[1..], true, Some(q[0].(func := false)))
    else
      var (kept, gone) := CancelLoop(q[1..], false, head);
      (kept, [q[0].token] + gone)
  }

  function KeptQueue(kept: Option<Command>): seq<Command> {
    if kept.Some? then [kept.value] else []
  }

  /** g_attrib_cancel_all. */
  function CancelAllStep(e: Engine): Engine {
    var (request, gone) := CancelLoop(e.requests, true, None);
    var (response, gone') := CancelLoop(e.responses, true, None);
    e.(requests := KeptQueue(request), responses := KeptQueue(response),
       destroyed := e.destroyed + gone + gone',
       cancelled := e.cancelled + (set t <- Toks(e.requests) + Toks(e.responses)))
  }

  /** can_write_data; the watch stays only when it returns TRUE. */
  function WritableStep(e: Engine, io: Io): Engine {
    var drop := e.(writeWatch := false);
    if e.stale || io == HangUp then drop
    else if e.responses == [] && e.requests == [] then drop
    else
      var cmd := if e.responses != [] then e.responses[0] else e.requests[0];
      var written := e.written + [Written(cmd.token, cmd.opcode)];
      if cmd.sent || io == Failed then drop
      else if cmd.expected == 0 then
        var e' := e.(written := written, destroyed := e.destroyed + [cmd.token]);
        if e.responses != [] then e'.(responses := e.responses[1..]) else e'.(requests := e.requests[1..])
      else
        var sent := cmd.(sent := true);
        var e' := if e.responses != [] then drop.(responses := e.responses[0 := sent])
                  else drop.(requests := e.requests[0 := sent]);
        e'.(timeoutWatch := true, written := written, onAir := e.onAir + [OnAir(cmd.token, cmd.expected)])
  }

  /** The status passed to the callback of the command taken off the queue. */
  function Status(cmd: Command, received: byte, error: byte): byte {
    if received == ATT_OP_ERROR then error else if cmd.expected != received then ATT_ECODE_IO else 0
  }

  function CallBack(e: Engine, cmd: Command, status: byte): seq<Result> {
    if cmd.func then e.results + [Result(cmd.token, status)] else e.results
  }

  /** received_data up to its call of the result callback.  The event callbacks come before anything is changed,
      so they are API steps before this one. */
  function ReceiveStep(e: Engine, io: Io, received: byte, error: byte, hasEvents: bool): Engine {
    if e.stale || io == HangUp then e.(readWatch := false)
    else if io == Failed then e.(writeWatch := e.writeWatch || e.requests != [] || e.responses != [])
    else if !IsResponse(received) then e
    else
      var e' := e.(timeoutWatch := false, onAir := StillOnAir(e.onAir, received));
      if e.requests == [] then e'.(readWatch := hasEvents)
      else
        var cmd, rest := e.requests[0], e.requests[1..];
        e'.(requests := rest, phase := Handling(cmd, rest != [] || e.responses != []),
            results := CallBack(e, cmd, Status(cmd, received, error)))
  }

  /** The end of received_data. */
  function ReceiveDoneStep(e: Engine): Engine
    requires e.phase.Handling?
  {
    e.(phase := Idle, destroyed := e.destroyed + [e.phase.command.token],
       writeWatch := e.writeWatch || e.phase.wake)
  }

  /** disconnect_timeout up to its first callback; the engine is stale once the queue is empty.  The timer is a
      one-shot source. */
  function ExpireStep(e: Engine): Engine {
    if e.requests == [] then e.(timeoutWatch := false, stale := true)
    else
      e.(timeoutWatch := false, requests := e.requests[1..], phase := Expiring(e.requests[0]),
         results := CallBack(e, e.requests[0], ATT_ECODE_TIMEOUT))
  }

  /** From one callback of disconnect_timeout to the next. */
  function ExpireNextStep(e: Engine): Engine
    requires e.phase.Expiring?
  {
    var e' := e.(destroyed := e.destroyed + [e.phase.command.token]);
    if e.requests == [] then e'.(phase := Idle, stale := true)
    else
      e'.(requests := e.requests[1..], phase := Expiring(e.requests[0]),
          results := CallBack(e, e.requests[0], ATT_ECODE_ABORTED))
  }

  /** What can happen in which phase: the main loop dispatches a watch only when no callback is running. */
  predicate Enabled(e: Engine, s: Step) {
    match s
    case Send(_, _, _) => true
    case Cancel(_) => true
    case CancelAll => true
    case Writable(_) => e.phase.Idle? && e.writeWatch
    case Receive(_, _, _, _) => e.phase.Idle? && e.readWatch
    case ReceiveDone => e.phase.Handling?
    case Expire => e.phase.Idle? && e.timeoutWatch
    case ExpireNext => e.phase.Expiring?
  }

  function Next(e: Engine, s: Step): Engine
    requires Enabled(e, s)
  {
    match s
    case Send(id, opcode, func) => SendStep(e, id, opcode, func)
    case Cancel(id) => CancelStep(e, id)
    case CancelAll => CancelAllStep(e)
    case Writable(io) => WritableStep(e, io)
    case Receive(io, received, error, hasEvents) => ReceiveStep(e, io, received, error, hasEvents)
    case ReceiveDone => ReceiveDoneStep(e)
    case Expire => ExpireStep(e)
    case ExpireNext => ExpireNextStep(e)
  }

  /** The engine is past, or in the middle of, its timeout. */
  predicate Ending(e: Engine) {
    e.stale || e.phase.Expiring?
  }

  /** The request at the head of the queue has been written. */
  predicate HeadSent(e: Engine) {
    e.requests != [] && e.requests[0].sent
  }

  /** The peer answers what it was asked, with an error or with the matching response; while nothing is on the air it
      may say what it likes. */
  predicate Conforming(e: Engine, s: Step) {
    s.Receive? && s.readIo == Ready && !e.stale && IsResponse(s.received) ==>
      e.onAir == [] || e.onAir[0].AnsweredBy(s.received)
  }

  /** A request is put before the head only while the head is unsent. */
  predicate Disciplined(e: Engine, s: Step) {
    s.Send? && s.id != 0 && !IsResponse(s.opcode) && !e.stale ==> !HeadSent(e)
  }
}
