/** A timeout of the ATT request engine whose callbacks re-enter the engine: disconnect_timeout marks it stale only at
    its end, so until then its callbacks may send and cancel (gattrib.c). */
module AttTimeout {
  import opened Basics
  import opened AttCodes
  import opened AttEngine
  import opened AttProtocol

  /** What can happen while disconnect_timeout runs: its callbacks send and cancel, and it goes on to the next. */
  predicate Draining(s: Step) {
    s.Send? || s.Cancel? || s.CancelAll? || s.ExpireNext?
  }

  /** The commands with a callback among those accepted before token n, in order. */
  function Owed(q: seq<Command>, n: nat): seq<nat> {
    if q == [] then []
    else if q[0].func && q[0].token < n then [q[0].token] + Owed(q[1..], n)
    else Owed(q[1..], n)
  }

  /** The callbacks run for commands accepted before token n. */
  function Paid(r: seq<Result>, n: nat): seq<nat> {
    if r == [] then []
    else if r[|r| - 1].token < n then Paid(r[..|r| - 1], n) + [r[|r| - 1].token]
    else Paid(r[..|r| - 1], n)
  }

  function Without(s: seq<nat>, gone: set<nat>): seq<nat> {
    if s == [] then [] else if s[0] in gone then Without(s[1..], gone) else [s[0]] + Without(s[1..], gone)
  }

  /** The results since there were k of them. */
  function Since(e: Engine, k: nat): seq<Result>
    requires k <= |e.results|
  {
    e.results[k..]
  }

  /** Where a timeout with n commands accepted and k results stands: everything called back since was told ABORTED,
      and what was called back and what is still owed a callback make up, in order, what was owed at first, less what
      was cancelled. */
  ghost predicate Drain(e: Engine, owed: seq<nat>, n: nat, k: nat) {
    && k <= |e.results| && n <= e.nextToken && Ending(e)
    && (forall t :: t in owed ==> t < n)
    && (forall i :: k <= i < |e.results| ==> e.results[i].status == ATT_ECODE_ABORTED)
    && Paid(Since(e, k), n) + Owed(e.requests, n) == Without(owed, e.cancelled)
    && (e.stale ==> e.requests == [])
  }

  lemma {:induction false} WithoutTwice(s: seq<nat>, a: set<nat>, b: set<nat>)
    ensures Without(s, a + b) == Without(Without(s, a), b)
  {
    if s != [] {
      WithoutTwice(s[1..], a, b);
      if s[0] !in a {
        assert ([s[0]] + Without(s[1..], a))[1..] == Without(s[1..], a) && ([s[0]] + Without(s[1..], a))[0] == s[0];
      }
    }
  }

  lemma {:induction false} WithoutConcat(s: seq<nat>, r: seq<nat>, gone: set<nat>)
    ensures Without(s + r, gone) == Without(s, gone) + Without(r, gone)
  {
    if s == [] {
      assert s + r == r;
    } else {
      assert (s + r)[1..] == s[1..] + r;
      WithoutConcat(s[1..], r, gone);
    }
  }

  lemma {:induction false} WithoutNone(s: seq<nat>, gone: set<nat>)
    requires forall t :: t in s ==> t !in gone
    ensures Without(s, gone) == s
  {
    if s != [] {
      assert s[0] in s;
      WithoutNone(s[1..], gone);
    }
  }

  lemma {:induction false} WithoutAll(s: seq<nat>, gone: set<nat>)
    requires forall t :: t in s ==> t in gone
    ensures Without(s, gone) == []
  {
    if s != [] {
      assert s[0] in s;
      WithoutAll(s[1..], gone);
    }
  }

  lemma {:induction false} OwedConcat(q: seq<Command>, r: seq<Command>, n: nat)
    ensures Owed(q + r, n) == Owed(q, n) + Owed(r, n)
  {
    if q == [] {
      assert q + r == r;
    } else {
      assert (q + r)[1..] == q[1..] + r;
      OwedConcat(q[1..], r, n);
    }
  }

  lemma {:induction false} OwedToken(q: seq<Command>, n: nat, t: nat)
    requires t in Owed(q, n)
    ensures t < n && exists c :: c in q && c.token == t && c.func
  {
    if q[0].func && q[0].token == t && t < n {
      assert q[0] in q;
    } else {
      assert t in Owed(q[1..], n);
      OwedToken(q[1..], n, t);
    }
  }

  lemma {:induction false} PaidToken(r: seq<Result>, n: nat, t: nat)
    requires t in Paid(r, n)
    ensures exists i :: 0 <= i < |r| && r[i].token == t
    decreases |r|
  {
    var k := |r| - 1;
    if r[k].token != t {
      assert t in Paid(r[..k], n);
      PaidToken(r[..k], n, t);
    }
  }

  /** A cancelled command was not called back, so cancelling takes away only what is still owed. */
  lemma PaidIsNotCancelled(e: Engine, n: nat, k: nat, t: nat)
    requires Ledger(e) && Callbacks(e) && k <= |e.results| && (exists c :: Queued(e, c) && c.token == t)
    ensures t !in Paid(Since(e, k), n)
  {
    var c :| Queued(e, c) && c.token == t;
    QueuedApart(e, c);
    if t in Paid(Since(e, k), n) {
      PaidToken(Since(e, k), n, t);
    }
  }

  /** Taking one command out of a queue takes its token out of what is owed. */
  lemma OwedLess(e: Engine, i: nat, n: nat)
    requires Ledger(e) && i < |e.requests|
    ensures Owed(e.requests[..i] + e.requests[i + 1..], n) == Without(Owed(e.requests, n), {e.requests[i].token})
  {
    hide Ledger, Owed, Without;
    var q, t := e.requests, e.requests[i].token;
    var rest := q[..i] + q[i + 1..];
    forall x | x in Owed(rest, n)
      ensures x !in {t}
    {
      OwedToken(rest, n, x);
      var c :| c in rest && c.token == x && c.func;
      Apart(e, c, i);
    }
    OwedConcat(q[..i], q[i + 1..], n);
    OwedConcat([q[i]], q[i + 1..], n);
    OwedConcat(q[..i], [q[i]] + q[i + 1..], n);
    assert q == q[..i] + ([q[i]] + q[i + 1..]);
    OwedOne(q[i], n);
    WithoutMiddle(Owed(q[..i], n), Owed([q[i]], n), Owed(q[i + 1..], n), {t});
  }

  lemma OwedOne(c: Command, n: nat)
    ensures Owed([c], n) == if c.func && c.token < n then [c.token] else []
  {
    assert [c][1..] == [] && Owed([], n) == [];
  }

  lemma WithoutMiddle(before: seq<nat>, middle: seq<nat>, after: seq<nat>, gone: set<nat>)
    requires (forall t :: t in middle ==> t in gone) && forall t :: t in before + after ==> t !in gone
    ensures Without(before + (middle + after), gone) == before + after
  {
    hide Without;
    WithoutConcat(before, middle + after, gone);
    WithoutConcat(middle, after, gone);
    WithoutAll(middle, gone);
    WithoutNone(before, gone);
    WithoutNone(after, gone);
  }

  // Steps

  /** Cancelling takes the same away from what is owed as from what was owed at first. */
  lemma DrainLoses(e: Engine, e': Engine, gone: set<nat>, owed: seq<nat>, n: nat, k: nat)
    requires Drain(e, owed, n, k)
    requires e'.results == e.results && e'.nextToken == e.nextToken && e'.stale == e.stale && e'.phase == e.phase
    requires e'.cancelled == e.cancelled + gone && (e.stale ==> e'.requests == [])
    requires Owed(e'.requests, n) == Without(Owed(e.requests, n), gone)
    requires forall t :: t in Paid(Since(e, k), n) ==> t !in gone
    ensures Drain(e', owed, n, k)
  {
    hide Owed, Paid, Without;
    WithoutNone(Paid(Since(e, k), n), gone);
    WithoutConcat(Paid(Since(e, k), n), Owed(e.requests, n), gone);
    WithoutTwice(owed, e.cancelled, gone);
  }

  lemma DrainSend(e: Engine, id: uint32, opcode: byte, func: bool, owed: seq<nat>, n: nat, k: nat)
    requires Drain(e, owed, n, k)
    ensures Drain(SendStep(e, id, opcode, func), owed, n, k)
  {
    hide Owed, Paid, Without, IsResponse, Opcode2Expected;
    var e' := SendStep(e, id, opcode, func);
    if !e.stale && !IsResponse(opcode) {
      var c := if id != 0 then e'.requests[0] else e'.requests[|e.requests|];
      OwedOne(c, n);
      OwedConcat([c], e.requests, n);
      OwedConcat(e.requests, [c], n);
    }
  }

  lemma OwedElsewhere(e: Engine, c: Command, n: nat)
    requires Ledger(e) && c in e.responses
    ensures Owed(e.requests, n) == Without(Owed(e.requests, n), {c.token})
  {
    hide Ledger, Owed, Without;
    forall x | x in Owed(e.requests, n)
      ensures x !in {c.token}
    {
      OwedToken(e.requests, n, x);
      var d :| d in e.requests && d.token == x && d.func;
      var j :| 0 <= j < |e.responses| && e.responses[j] == c;
      Apart(e, d, j);
    }
    WithoutNone(Owed(e.requests, n), {c.token});
  }

  lemma DrainCancel(e: Engine, id: uint32, owed: seq<nat>, n: nat, k: nat)
    requires Inv(e) && Drain(e, owed, n, k)
    ensures Drain(CancelStep(e, id), owed, n, k)
  {
    hide Owed, Paid, Without, IsResponse, Opcode2Expected, Ledger, Callbacks;
    var i, j := Find(e.requests, id), Find(e.responses, id);
    if i < |e.requests| {
      assert !e.requests[i].sent && Queued(e, e.requests[i]);
      OwedLess(e, i, n);
      PaidIsNotCancelled(e, n, k, e.requests[i].token);
      DrainLoses(e, CancelStep(e, id), {e.requests[i].token}, owed, n, k);
    } else if j < |e.responses| {
      assert Queued(e, e.responses[j]);
      OwedElsewhere(e, e.responses[j], n);
      PaidIsNotCancelled(e, n, k, e.responses[j].token);
      DrainLoses(e, CancelStep(e, id), {e.responses[j].token}, owed, n, k);
    }
  }

  lemma DrainCancelAll(e: Engine, owed: seq<nat>, n: nat, k: nat)
    requires Inv(e) && Drain(e, owed, n, k)
    ensures Drain(CancelAllStep(e), owed, n, k)
  {
    CancelLoopKeepsHead(e.requests);
    hide Owed, Paid, Without, IsResponse, Opcode2Expected, CancelLoop;
    var gone := set t <- Toks(e.requests) + Toks(e.responses);
    assert e.requests != [] ==> !e.requests[0].sent;
    hide Ledger, Callbacks, Shape;
    forall t | t in gone
      ensures t !in Paid(Since(e, k), n)
    {
      TokQueued(e, t);
      PaidIsNotCancelled(e, n, k, t);
    }
    forall x | x in Owed(e.requests, n)
      ensures x in gone
    {
      OwedToken(e.requests, n, x);
      var c :| c in e.requests && c.token == x && c.func;
      QueuedTok(e, c);
    }
    WithoutAll(Owed(e.requests, n), gone);
    OwedNothing(n);
    DrainLoses(e, CancelAllStep(e), gone, owed, n, k);
  }

  lemma OwedNothing(n: nat)
    ensures Owed([], n) == []
  {
  }

  lemma TokQueued(e: Engine, t: nat)
    requires t in Toks(e.requests) + Toks(e.responses)
    ensures exists c :: Queued(e, c) && c.token == t
  {
    var k :| 0 <= k < |Toks(e.requests) + Toks(e.responses)| && (Toks(e.requests) + Toks(e.responses))[k] == t;
    assert Queued(e, if k < |e.requests| then e.requests[k] else e.responses[k - |e.requests|]);
  }

  lemma QueuedTok(e: Engine, c: Command)
    requires c in e.requests
    ensures c.token in Toks(e.requests) + Toks(e.responses)
  {
    var i :| 0 <= i < |e.requests| && e.requests[i] == c;
    assert Toks(e.requests)[i] == c.token;
  }

  lemma DrainNext(e: Engine, owed: seq<nat>, n: nat, k: nat)
    requires Drain(e, owed, n, k) && e.phase.Expiring?
    ensures Drain(ExpireNextStep(e), owed, n, k)
  {
    var e' := ExpireNextStep(e);
    hide Without, Paid, Owed;
    HeadPaid(e.requests, n);
    if e.requests != [] && e.requests[0].func {
      var r := Result(e.requests[0].token, ATT_ECODE_ABORTED);
      assert Since(e', k) == Since(e, k) + [r];
      PaidOnce(Since(e, k), r, n);
      Regrouped(Paid(Since(e, k), n), if r.token < n then [r.token] else [], Owed(e.requests[1..], n));
    }
  }

  lemma HeadPaid(q: seq<Command>, n: nat)
    ensures q != [] ==>
              Owed(q, n) == (if q[0].func && q[0].token < n then [q[0].token] else []) + Owed(q[1..], n)
    ensures q == [] ==> Owed(q, n) == []
  {
  }

  lemma PaidOnce(r: seq<Result>, last: Result, n: nat)
    ensures Paid(r + [last], n) == Paid(r, n) + if last.token < n then [last.token] else []
  {
    assert (r + [last])[..|r|] == r;
  }

  lemma Regrouped(a: seq<nat>, b: seq<nat>, c: seq<nat>)
    ensures a + (b + c) == (a + b) + c
  {
  }

  lemma StepDrains(e: Engine, s: Step, owed: seq<nat>, n: nat, k: nat)
    requires Inv(e) && Drain(e, owed, n, k) && Enabled(e, s) && Draining(s)
    ensures Drain(Next(e, s), owed, n, k)
  {
    hide Inv, Drain, SendStep, CancelStep, CancelAllStep, ExpireNextStep;
    match s
    case Send(id, opcode, func) => DrainSend(e, id, opcode, func, owed, n, k);
    case Cancel(id) => DrainCancel(e, id, owed, n, k);
    case CancelAll => DrainCancelAll(e, owed, n, k);
    case ExpireNext => DrainNext(e, owed, n, k);
  }

  lemma {:induction false} RunDrains(e: Engine, steps: seq<Step>, owed: seq<nat>, n: nat, k: nat)
    requires Inv(e) && Drain(e, owed, n, k) && Allowed(e, steps) && forall s <- steps :: Draining(s)
    ensures Drain(Run(e, steps), owed, n, k)
    decreases |steps|
  {
    hide Inv, Drain, Draining;
    if steps != [] {
      assert steps[0] in steps;
      StepDrains(e, steps[0], owed, n, k);
      StepKeepsInv(e, steps[0]);
      RunDrains(Next(e, steps[0]), steps[1..], owed, n, k);
    }
  }

  /** At the first callback everything else that was queued is owed one. */
  lemma DrainStarts(e: Engine)
    requires Inv(e) && !Ending(e) && Enabled(e, Expire)
    ensures e.requests != [] && ExpireStep(e).phase == Expiring(e.requests[0])
    ensures var e' := ExpireStep(e);
            && e'.results == CallBack(e, e.requests[0], ATT_ECODE_TIMEOUT)
            && Drain(e', Owed(e.requests[1..], e.nextToken), e.nextToken, |e'.results|)
  {
    hide IsResponse, Opcode2Expected, Owed, Without;
    var e', n := ExpireStep(e), e.nextToken;
    var owed := Owed(e.requests[1..], n);
    forall t | t in owed
      ensures t < n && t !in e.cancelled
    {
      OwedToken(e.requests[1..], n, t);
      var c :| c in e.requests[1..] && c.token == t && c.func;
      assert c in e.requests;
    }
    WithoutNone(owed, e.cancelled);
    assert Since(e', |e'.results|) == [];
  }

  /** A timeout, whatever its callbacks send and cancel: the head gets TIMEOUT and every later callback ABORTED; the
      requests that were queued when the timer fired are called back in the order of the queue, each that has a
      callback and was not cancelled meanwhile; and at the end the queue is empty and the engine stale. */
  lemma TimeoutWithCallbacks(e: Engine, steps: seq<Step>)
    requires Inv(e) && !Ending(e) && Enabled(e, Expire)
    requires Allowed(ExpireStep(e), steps) && forall s <- steps :: Draining(s)
    ensures var head, e' := CallBack(e, e.requests[0], ATT_ECODE_TIMEOUT), Run(ExpireStep(e), steps);
            && head <= e'.results
            && (forall i :: |head| <= i < |e'.results| ==> e'.results[i].status == ATT_ECODE_ABORTED)
            && (e'.phase.Idle? ==>
                  && Paid(Since(e', |head|), e.nextToken)
                     == Without(Owed(e.requests[1..], e.nextToken), e'.cancelled)
                  && e'.requests == [] && e'.stale)
  {
    hide Inv, Owed, Paid, Without;
    DrainStarts(e);
    assert Disciplined(e, Expire);
    StepKeepsInv(e, Expire);
    var owed, k := Owed(e.requests[1..], e.nextToken), |ExpireStep(e).results|;
    RunDrains(ExpireStep(e), steps, owed, e.nextToken, k);
    RunKeepsResults(ExpireStep(e), steps);
    OwedNothing(e.nextToken);
  }

  /** Results are only ever added. */
  lemma {:induction false} RunKeepsResults(e: Engine, steps: seq<Step>)
    requires Allowed(e, steps)
    ensures e.results <= Run(e, steps).results
    decreases |steps|
  {
    hide Next, Enabled, Disciplined;
    if steps != [] {
      NextKeepsResults(e, steps[0]);
      RunKeepsResults(Next(e, steps[0]), steps[1..]);
    }
  }

  lemma NextKeepsResults(e: Engine, s: Step)
    requires Enabled(e, s)
    ensures e.results <= Next(e, s).results
  {
    hide Status, CancelLoop, CancelAt, KeptQueue, Find, IsResponse, Opcode2Expected, Toks;
  }
}
