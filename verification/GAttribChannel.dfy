/** The functions of gattrib.c on the structure they update, each shown to take the corresponding step. */
module GAttribChannel {
  import opened Basics
  import opened AttCodes
  import opened AttEngine
  import opened AttProtocol

  class GAttrib {
    var requests: seq<Command>
    var responses: seq<Command>
    var writeWatch: bool
    var readWatch: bool
    var timeoutWatch: bool
    var stale: bool
    var nextCmdId: uint32
    var nextToken: nat
    var phase: Phase
    ghost var written: seq<Written>
    ghost var onAir: seq<OnAir>
    ghost var destroyed: seq<nat>
    ghost var results: seq<Result>
    ghost var cancelled: set<nat>

    ghost function State(): Engine
      reads this
    {
      Engine(requests, responses, writeWatch, readWatch, timeoutWatch, stale, nextCmdId, phase, nextToken,
             written, onAir, destroyed, results, cancelled)
    }

    constructor ()
      ensures State() == INITIAL && Inv(State()) && Awake(State())
    {
      requests, responses := [], [];
      writeWatch, readWatch, timeoutWatch, stale := false, true, false, false;
      nextCmdId, nextToken, phase := 0, 0, Idle;
      written, onAir, destroyed, results, cancelled := [], [], [], [], {};
      new;
      InitialInv();
    }

    /** wake_up_sender. */
    method WakeUpSender()
      modifies `writeWatch
      ensures writeWatch
    {
      if writeWatch {
        return;
      }
      writeWatch := true;
    }

    /** g_attrib_send. */
    method Send(id: uint32, opcode: byte, func: bool) returns (ret: uint32)
      modifies this
      ensures State() == SendStep(old(State()), id, opcode, func)
      ensures ret == if stale then 0 else if id != 0 then id else nextCmdId
    {
      hide IsResponse, Opcode2Expected;
      if stale {
        return 0;
      }
      var cmdId := id;
      if id == 0 {
        nextCmdId := (nextCmdId + 1) % 0x1_0000_0000;
        cmdId := nextCmdId;
      }
      var c := Command(nextToken, cmdId, opcode, Opcode2Expected(opcode), false, func);
      nextToken := nextToken + 1;
      Enqueue(c, id != 0);
      return cmdId;
    }

    /** Its end: the command goes to the front or the back of its queue, and the sender is woken if it is alone
        there. */
    method Enqueue(c: Command, ahead: bool)
      modifies `requests, `responses, `writeWatch
      ensures var response := IsResponse(c.opcode);
              && responses == old(responses) + (if response then [c] else [])
              && requests == (if response then old(requests)
                              else if ahead then [c] + old(requests) else old(requests) + [c])
              && (writeWatch <==> old(writeWatch) || (if response then old(responses) else old(requests)) == [])
    {
      hide IsResponse;
      var queue := if IsResponse(c.opcode) then responses else requests;
      if ahead && !IsResponse(c.opcode) {
        queue := [c] + queue;
      } else {
        queue := queue + [c];
      }
      if IsResponse(c.opcode) {
        responses := queue;
      } else {
        requests := queue;
      }
      if |queue| == 1 {
        WakeUpSender();
      }
    }

    static method FindCustom(queue: seq<Command>, id: uint32) returns (i: nat)
      ensures i == Find(queue, id)
    {
      i := 0;
      while i < |queue| && queue[i].id != id
        invariant i <= |queue| && Find(queue, id) == i + Find(queue[i..], id)
      {
        assert queue[i..][1..] == queue[i + 1..];
        i := i + 1;
      }
    }

    static method CancelCommand(queue: seq<Command>, i: nat) returns (queue': seq<Command>, gone: seq<nat>)
      requires i < |queue|
      ensures (queue', gone) == CancelAt(queue, i)
    {
      if i == 0 && queue[0].sent {
        return queue[0 := queue[0].(func := false)], [];
      }
      return queue[..i] + queue[i + 1..], [queue[i].token];
    }

    /** g_attrib_cancel. */
    method Cancel(id: uint32) returns (found: bool)
      modifies this
      ensures State() == CancelStep(old(State()), id)
      ensures found <==> exists c :: (c in old(requests) || c in old(responses)) && c.id == id
    {
      hide CancelAt;
      var i := FindCustom(requests, id);
      if i < |requests| {
        cancelled := cancelled + {requests[i].token};
        assert requests[i] in requests;
        var q, gone := CancelCommand(requests, i);
        requests, destroyed := q, destroyed + gone;
        return true;
      }
      i := FindCustom(responses, id);
      if i < |responses| {
        cancelled := cancelled + {responses[i].token};
        assert responses[i] in responses;
        var q, gone := CancelCommand(responses, i);
        responses, destroyed := q, destroyed + gone;
        return true;
      }
      return false;
    }

    /** cancel_all_per_queue: the queue is emptied from the front; a head that was written is put back. */
    static method CancelAllPerQueue(queue: seq<Command>) returns (kept: Option<Command>, gone: seq<nat>)
      ensures (kept, gone) == CancelLoop(queue, true, None)
    {
      var first, rest := true, queue;
      kept, gone := None, [];
      ghost var all := CancelLoop(queue, true, None);
      assert [] + all.1 == all.1;
      while rest != []
        invariant all == (CancelLoop(rest, first, kept).0, gone + CancelLoop(rest, first, kept).1)
      {
        var c := rest[0];
        ghost var before, left := gone, CancelLoop(rest, first, kept).1;
        rest := rest[1..];
        if first && c.sent {
          kept := Some(c.(func := false));
        } else {
          first := false;
          gone := gone + [c.token];
          assert before + ([c.token] + left[1..]) == gone + left[1..];
        }
      }
      assert gone + [] == gone;
    }

    /** g_attrib_cancel_all. */
    method CancelAll()
      modifies this
      ensures State() == CancelAllStep(old(State()))
    {
      hide CancelLoop;
      cancelled := cancelled + (set t <- Toks(requests) + Toks(responses));
      var request, gone := CancelAllPerQueue(requests);
      var response, gone' := CancelAllPerQueue(responses);
      requests, responses := KeptQueue(request), KeptQueue(response);
      destroyed := destroyed + gone + gone';
    }

    /** can_write_data and, when it returns FALSE, destroy_sender. */
    method CanWriteData(io: Io) returns (keep: bool)
      requires Enabled(State(), Writable(io))
      modifies this
      ensures State() == WritableStep(old(State()), io)
      ensures keep <==> writeWatch
    {
      keep := WriteHead(io);
      if !keep {
        writeWatch := false;
      }
    }

    method WriteHead(io: Io) returns (keep: bool)
      requires Enabled(State(), Writable(io))
      modifies this
      ensures writeWatch
      ensures WritableStep(old(State()), io) == if keep then State() else State().(writeWatch := false)
    {
      if stale || io == HangUp {
        return false;
      }
      var fromResponses := responses != [];
      if !fromResponses && requests == [] {
        return false;
      }
      var cmd := if fromResponses then responses[0] else requests[0];
      if cmd.sent || io == Failed {
        return false;
      }
      written := written + [Written(cmd.token, cmd.opcode)];
      if cmd.expected == 0 {
        if fromResponses {
          responses := responses[1..];
        } else {
          requests := requests[1..];
        }
        destroyed := destroyed + [cmd.token];
        return true;
      }
      onAir := onAir + [OnAir(cmd.token, cmd.expected)];
      cmd := cmd.(sent := true);
      if fromResponses {
        responses := responses[0 := cmd];
      } else {
        requests := requests[0 := cmd];
      }
      if !timeoutWatch {
        timeoutWatch := true;
      }
      return false;
    }

    /** received_data up to the call of the result callback. */
    method ReceivedData(io: Io, received: byte, error: byte, hasEvents: bool)
      requires Enabled(State(), Receive(io, received, error, hasEvents))
      modifies this
      ensures State() == ReceiveStep(old(State()), io, received, error, hasEvents)
    {
      hide Status, IsResponse;
      if stale || io == HangUp {
        readWatch := false;
        return;
      }
      if io == Failed {
        if requests != [] || responses != [] {
          WakeUpSender();
        }
        return;
      }
      if !IsResponse(received) {
        return;
      }
      if timeoutWatch {
        timeoutWatch := false;
      }
      onAir := StillOnAir(onAir, received);
      if requests == [] {
        readWatch := hasEvents;
        return;
      }
      TakeHead(received, error);
    }

    /** Its part for the command that is answered. */
    method TakeHead(received: byte, error: byte)
      requires requests != []
      modifies `requests, `phase, `results
      ensures requests == old(requests[1..])
      ensures phase == Handling(old(requests[0]), requests != [] || responses != [])
      ensures results == CallBack(old(State()), old(requests[0]), Status(old(requests[0]), received, error))
    {
      var cmd := requests[0];
      requests := requests[1..];
      var status := if received == ATT_OP_ERROR then error else if cmd.expected != received then ATT_ECODE_IO else 0;
      var norequests, noresponses := requests == [], responses == [];
      phase := Handling(cmd, !norequests || !noresponses);
      if cmd.func {
        results := results + [Result(cmd.token, status)];
      }
    }

    /** The end of received_data, after the callback. */
    method ReceivedDataEnd()
      requires phase.Handling?
      modifies this
      ensures State() == ReceiveDoneStep(old(State()))
    {
      destroyed := destroyed + [phase.command.token];
      if phase.wake {
        WakeUpSender();
      }
      phase := Idle;
    }

    /** disconnect_timeout up to its first callback, or to its end when there is none. */
    method DisconnectTimeout()
      requires Enabled(State(), Expire)
      modifies this
      ensures State() == ExpireStep(old(State())) && !phase.Handling?
    {
      timeoutWatch := false;
      if requests == [] {
        stale := true;
        return;
      }
      var c := requests[0];
      requests := requests[1..];
      phase := Expiring(c);
      if c.func {
        results := results + [Result(c.token, ATT_ECODE_TIMEOUT)];
      }
    }

    /** All of disconnect_timeout, when its callbacks leave the queue alone. */
    method QuietDisconnectTimeout()
      requires Enabled(State(), Expire)
      modifies this
      ensures var e := ExpireStep(old(State()));
              State() == if e.phase.Idle? then e else ExpireRest(e)
    {
      hide ExpireStep, ExpireNextStep;
      DisconnectTimeout();
      if phase.Idle? {
        return;
      }
      ghost var last := ExpireRest(State());
      while phase.Expiring?
        invariant !phase.Handling? && last == if phase.Expiring? then ExpireRest(State()) else State()
        decreases phase.Expiring?, |requests|
      {
        NextTimeoutCallback();
      }
    }

    /** From one callback of disconnect_timeout to the next, or to its end. */
    method NextTimeoutCallback()
      requires phase.Expiring?
      modifies this
      ensures State() == ExpireNextStep(old(State()))
      ensures phase.Idle? || (phase.Expiring? && |requests| < old(|requests|))
    {
      destroyed := destroyed + [phase.command.token];
      if requests == [] {
        phase, stale := Idle, true;
        return;
      }
      var c := requests[0];
      requests := requests[1..];
      phase := Expiring(c);
      if c.func {
        results := results + [Result(c.token, ATT_ECODE_ABORTED)];
      }
    }
  }
}
