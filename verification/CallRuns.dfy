/**
  Runs of the call protocol: what holds in every interleaving of callers, peers, receivers and
  time-outs.
 */
module CallRuns {
  import opened Bytes
  import opened Sequence
  import opened CallProtocol

  ghost predicate CanRun(s: State, steps: seq<Step>)
    decreases steps
  {
    steps == [] || (Enabled(s, steps[0]) && CanRun(Apply(s, steps[0]), steps[1..]))
  }

  ghost function Run(s: State, steps: seq<Step>): State
    requires CanRun(s, steps)
    decreases steps
  {
    if steps == [] then s else Run(Apply(s, steps[0]), steps[1..])
  }

  /** No call of the run draws a number that a message under way still bears. */
  ghost predicate CleanRun(s: State, steps: seq<Step>)
    requires CanRun(s, steps)
    decreases steps
  {
    steps == [] || (Clean(s, steps[0]) && CleanRun(Apply(s, steps[0]), steps[1..]))
  }

  lemma RunPrepend(s: State, step: Step, steps: seq<Step>)
    requires Enabled(s, step) && CanRun(Apply(s, step), steps)
    ensures CanRun(s, [step] + steps)
    ensures Run(s, [step] + steps) == Run(Apply(s, step), steps)
  {
    assert ([step] + steps)[1..] == steps;
  }

  lemma {:induction false} RunAppend(s: State, steps: seq<Step>, more: seq<Step>)
    requires CanRun(s, steps) && CanRun(Run(s, steps), more)
    ensures CanRun(s, steps + more) && Run(s, steps + more) == Run(Run(s, steps), more)
    decreases steps
  {
    if steps == [] {
      assert [] + more == more;
    } else {
      RunAppend(Apply(s, steps[0]), steps[1..], more);
      assert (steps + more)[1..] == steps[1..] + more;
    }
  }

  // ----- every run -----

  lemma {:induction false} RunSane(s: State, steps: seq<Step>)
    requires Sane(s) && CanRun(s, steps)
    ensures Sane(Run(s, steps)) && s.log <= Run(s, steps).log
    decreases steps
  {
    if steps != [] {
      StepSane(s, steps[0]);
      RunSane(Apply(s, steps[0]), steps[1..]);
    }
  }

  /**
    A call is executed at most once, and with its own arguments, in every run whatever, however
    often the numbers wrap around.
   */
  lemma ExecutedAtMostOnce(s: State, steps: seq<Step>, i: nat, j: nat)
    requires Init(s) && CanRun(s, steps) && i < |Run(s, steps).log| && j < |Run(s, steps).log|
    ensures var s' := Run(s, steps);
      && (s'.log[i].call == s'.log[j].call ==> i == j)
      && var e := s'.log[i]; OfCall(s'.core.started, e.call, e.t, e.id, e.name, e.tlv)
  {
    RunSane(s, steps);
    var log := Run(s, steps).log;
    assert i < j ==> log[i].call != log[j].call;
    assert j < i ==> log[j].call != log[i].call;
  }

  // ----- calls that fail -----

  /**
    A call whose wait failed ends with the time-out status, and a call that could not be started
    with the negative status of a failed allocation or a failed send.
   */
  ghost predicate Ended(s: Core) {
    forall c :: c in s.results ==> EndedAs(c in s.started, s.results[c])
  }

  ghost predicate EndedAs(started: bool, r: Result) {
    if r.ok then started else if started then r.status == 5 else r.status == -3 || r.status == -4
  }

  lemma StepEnded(s: State, step: Step)
    requires Ended(s.core) && Enabled(s, step)
    ensures Ended(Apply(s, step).core)
  {
    var core, core' := s.core, Apply(s, step).core;
    forall c | c in core'.results ensures EndedAs(c in core'.started, core'.results[c]) {
      assert c in core.results ==> EndedAs(c in core.started, core.results[c]);
    }
  }

  lemma {:induction false} RunEnded(s: State, steps: seq<Step>)
    requires Ended(s.core) && CanRun(s, steps)
    ensures Ended(Run(s, steps).core)
    decreases steps
  {
    if steps != [] {
      StepEnded(s, steps[0]);
      RunEnded(Apply(s, steps[0]), steps[1..]);
    }
  }

  // ----- clean runs -----

  lemma {:induction false} RunSafe(s: State, steps: seq<Step>)
    requires Sane(s) && Safe(s) && CanRun(s, steps) && CleanRun(s, steps)
    ensures Sane(Run(s, steps)) && Safe(Run(s, steps))
    decreases steps
  {
    if steps != [] {
      StepSane(s, steps[0]);
      StepSafe(s, steps[0]);
      RunSafe(Apply(s, steps[0]), steps[1..]);
    }
  }

  /**
    In every interleaving in which no call draws a number that a message under way still bears, a
    call whose wait succeeded got the status of an answer the peer gave to this very call and as
    much of the payload as fits, and a call that ended left no record, no waiter and no table
    entry behind.
   */
  lemma RunIsSafe(s: State, steps: seq<Step>, c: CallId)
    requires Init(s) && CanRun(s, steps) && CleanRun(s, steps) && c in Run(s, steps).core.results
    ensures var s' := Run(s, steps);
      var core, r := s'.core, s'.core.results[c];
      && (r.ok ==> Answered(core.started, s'.log, c, r.status, r.buf))
      && c !in core.calls
      && forall id :: id in core.pending ==> core.pending[id] != c
  {
    RunSafe(s, steps);
    var s' := Run(s, steps);
    assert GoodResult(s'.core, s'.log, c, s'.core.results[c]);
    assert forall id :: id in s'.core.pending ==> HasRecord(s'.core, id);
  }

  lemma {:induction false} DrawnGrows(s: State, steps: seq<Step>)
    requires CanRun(s, steps)
    ensures s.core.drawn <= Run(s, steps).core.drawn
    decreases steps
  {
    if steps != [] {
      DrawnGrows(Apply(s, steps[0]), steps[1..]);
    }
  }

  lemma {:induction false} RunNumbered(s: State, steps: seq<Step>)
    requires Sane(s) && Numbered(s.core) && CanRun(s, steps) && Run(s, steps).core.drawn <= NUMBERS
    ensures CleanRun(s, steps) && Sane(Run(s, steps)) && Numbered(Run(s, steps).core)
    decreases steps
  {
    if steps != [] {
      DrawnGrows(Apply(s, steps[0]), steps[1..]);
      StepSane(s, steps[0]);
      StepNumbered(s, steps[0]);
      RunNumbered(Apply(s, steps[0]), steps[1..]);
    }
  }

  /** Until the numbers wrap around, every run is clean, and no two calls were given one number. */
  lemma CleanBeforeWrapAround(s: State, steps: seq<Step>)
    requires Init(s) && CanRun(s, steps) && Run(s, steps).core.drawn <= NUMBERS
    ensures CleanRun(s, steps)
    ensures var started := Run(s, steps).core.started;
      forall c, d :: c in started && d in started && started[c].id == started[d].id ==> c == d
  {
    RunNumbered(s, steps);
  }

  /** What a call returned, how it was started, and what was answered stays as it is. */
  ghost predicate Extends(s: State, s': State) {
    && s.log <= s'.log
    && (forall c :: c in s.core.started ==> c in s'.core.started && s'.core.started[c] == s.core.started[c])
    && (forall c :: c in s.core.results ==> c in s'.core.results && s'.core.results[c] == s.core.results[c])
  }

  lemma StepExtends(s: State, step: Step)
    requires Safe(s) && Enabled(s, step)
    ensures Extends(s, Apply(s, step))
  {
    if step.Caller? && step.action.Finish? {
      var d := step.action.c;
      assert d in s.core.results ==> GoodResult(s.core, s.log, d, s.core.results[d]);
    }
  }

  /**
    A received reply touches nothing but the record of the call it answers, and that only while
    the record is allocated: a late reply changes no call at all.
   */
  lemma ReplyTouchesOneCall(s: State, t: Transport, response: Option<seq<Byte>>)
    requires Sane(s) && Safe(s) && Enabled(s, Receive(t, false, response)) && s.down[t][0].Reply?
    ensures var c, core := s.down[t][0].call, Apply(s, Receive(t, false, response)).core;
      && core == s.core.(calls := core.calls) && core.calls.Keys == s.core.calls.Keys
      && (forall d :: d in s.core.calls && d != c ==> core.calls[d] == s.core.calls[d])
      && (c !in s.core.calls ==> core == s.core)
      && (c in s.core.calls ==> core.calls[c].signaled && core.calls[c].done)
  {
    var item := s.down[t][0];
    assert Genuine(s.core.started, s.log, t, item) && Owned(s.core.pending, item) && Bears(item, item.id);
    if item.id in s.core.pending {
      assert HasRecord(s.core, item.id);
    }
    if item.call in s.core.calls {
      assert InTable(s.core, item.call);
      var k: nat :| GaveAt(s.log, k, item.call, item.id, item.answer);
      assert OfCall(s.core.started, s.log[k].call, s.log[k].t, s.log[k].id, s.log[k].name, s.log[k].tlv);
    }
  }

  /** A reply handled before the wait begins, or while it lasts, ends the wait. */
  lemma ReplyIsNotLost(s: State, c: CallId)
    requires Safe(s) && c in s.core.calls && s.core.calls[c].done
    ensures s.core.calls[c].phase == Sent ==>
      Act(s.core, Wait(c)).calls[c].phase == Returned(true)
    ensures s.core.calls[c].phase == Blocked ==> CanAct(s.core, Wake(c))
  {
    assert GoodCall(s.core, s.log, c, s.core.calls[c]);
  }

  // ----- calls do complete -----

  /** The steps of a call that has not begun to wait and finds its waiter signaled. */
  function WaitAndFinish(c: CallId): seq<Step> {
    [Caller(Wait(c))] + ([Caller(Finish(c))] + [])
  }

  /** A signaled call that has not begun to wait returns at once with what its record holds. */
  lemma {:induction false} WaitSucceeds(s: State, c: CallId)
    requires c in s.core.calls && c in s.core.started && s.core.calls[c].phase == Sent && s.core.calls[c].signaled
    ensures CanRun(s, WaitAndFinish(c))
    ensures var s' := Run(s, WaitAndFinish(c));
      && c in s'.core.results && s'.core.results[c] == Result(true, s.core.calls[c].status, s.core.calls[c].buf)
      && s'.log == s.log && s'.core.started == s.core.started && s'.core.drawn == s.core.drawn
  {
    var s' := Apply(s, Caller(Wait(c)));
    RunPrepend(s', Caller(Finish(c)), []);
    RunPrepend(s, Caller(Wait(c)), [Caller(Finish(c))] + []);
  }

  /**
    A call whose request and reply are delivered at once returns the answer, whatever that is and
    whatever else is going on on other transports.
   */
  lemma {:induction false} PromptCallSucceeds(s: State, c: CallId, args: Started, skipped: nat, answer: Answer)
    returns (steps: seq<Step>)
    requires Enabled(s, Caller(Start(c, args, skipped))) && args.t in s.down
    requires s.up[args.t] == [] && s.down[args.t] == []
    ensures CanRun(s, steps) && c in Run(s, steps).core.results
    ensures Run(s, steps).core.results[c] == Result(true, answer.status, Truncated(answer.payload, args.bufSize))
  {
    var t := args.t;
    var s1 := Apply(s, Caller(Start(c, args, skipped)));
    assert s1.up[t] == [Request(args.id, c, args.name, args.tlv)];
    var s2 := Apply(s1, PeerTakes(t, Some(answer), true));
    assert s2.down[t] == [Reply(args.id, c, answer)];
    var s3 := Apply(s2, Receive(t, false, None));
    steps := WaitAndFinish(c);
    WaitSucceeds(s3, c);
    RunPrepend(s2, Receive(t, false, None), steps);
    steps := [Receive(t, false, None)] + steps;
    RunPrepend(s1, PeerTakes(t, Some(answer), true), steps);
    steps := [PeerTakes(t, Some(answer), true)] + steps;
    RunPrepend(s, Caller(Start(c, args, skipped)), steps);
    steps := [Caller(Start(c, args, skipped))] + steps;
  }

  // ----- a number drawn again too early -----

  /**
    A message that bears the number of a call it does not belong to: the call takes its answer
    for its own and returns it.
   */
  lemma {:induction false} StaleReplyIsTaken(s: State, t: Transport, c: CallId) returns (steps: seq<Step>)
    requires t in s.up && t in s.down && s.down[t] != [] && s.down[t][0].Reply?
    requires s.down[t][0].id in s.core.pending && s.core.pending[s.down[t][0].id] == c
    requires c in s.core.calls && c in s.core.started && s.core.calls[c].phase == Sent
    ensures CanRun(s, steps)
    ensures var s', a := Run(s, steps), s.down[t][0].answer;
      && c in s'.core.results
      && s'.core.results[c] == Result(true, a.status, Truncated(a.payload, s.core.started[c].bufSize))
      && s'.log == s.log && s'.core.started == s.core.started && s'.core.drawn == s.core.drawn
  {
    var s1 := Apply(s, Receive(t, false, None));
    steps := WaitAndFinish(c);
    WaitSucceeds(s1, c);
    RunPrepend(s, Receive(t, false, None), steps);
    steps := [Receive(t, false, None)] + steps;
  }

  /** Calls that fail to start use numbers up and leave nothing else behind but their results. */
  lemma {:induction false} FailingCalls(s: State, n: nat, c: CallId) returns (steps: seq<Step>)
    requires IsNumber(s.core.next) && s.core.pending == map[]
    requires forall d :: d >= c ==> Fresh(s.core, d)
    ensures CanRun(s, steps)
    ensures var s' := Run(s, steps);
      && s' == s.(core := s.core.(next := After(s.core.next, n), drawn := s.core.drawn + n, results := s'.core.results))
      && forall d :: d < c ==> (d in s'.core.results <==> d in s.core.results)
    decreases n
  {
    steps := [];
    if n > 0 {
      var action := StartFails(c, 0, STATUS_INTERNAL_ERROR);
      assert After(s.core.next, 0) == s.core.next && Draws(s.core, 0, s.core.next);
      var s1 := Apply(s, Caller(action));
      assert s1.core.next == Successor(s.core.next) && s1.core.drawn == s.core.drawn + 1;
      assert s1.core.results == s.core.results[c := s1.core.results[c]];
      forall d | d >= c + 1 ensures Fresh(s1.core, d) {
        assert Fresh(s.core, d);
      }
      AfterFirst(s.core.next, n - 1);
      steps := FailingCalls(s1, n - 1, c + 1);
      RunPrepend(s, Caller(action), steps);
      steps := [Caller(action)] + steps;
    }
  }

  lemma {:induction false} AfterFirst(start: U32, n: nat)
    requires IsNumber(start)
    ensures After(Successor(start), n) == After(start, n + 1)
  {
    assert After(start, 1) == Successor(start);
    if n > 0 {
      AfterFirst(start, n - 1);
    }
  }

  /** A call without an answer gives up and leaves only its result. */
  lemma {:induction false} GiveUp(s: State, c: CallId) returns (steps: seq<Step>)
    requires c in s.core.calls && c in s.core.started && s.core.calls[c].phase == Sent && !s.core.calls[c].signaled
    ensures CanRun(s, steps)
    ensures var core := Run(s, steps).core;
      && Run(s, steps) == s.(core := core)
      && core == s.core.(pending := s.core.pending - {s.core.started[c].id}, calls := s.core.calls - {c},
                         results := s.core.results[c := Result(false, STATUS_TIMEOUT, s.core.calls[c].buf)])
  {
    var s1 := Apply(s, Caller(Wait(c)));
    var s2 := Apply(s1, Caller(TimeOut(c)));
    steps := [Caller(Finish(c))] + [];
    RunPrepend(s2, Caller(Finish(c)), []);
    RunPrepend(s1, Caller(TimeOut(c)), steps);
    steps := [Caller(TimeOut(c))] + steps;
    RunPrepend(s, Caller(Wait(c)), steps);
    steps := [Caller(Wait(c))] + steps;
  }

  /** A call that is answered and gave up: its number is free again, its reply still under way. */
  lemma {:induction false} AbandonedCall(s: State, c: CallId, args: Started, a: Answer) returns (steps: seq<Step>)
    requires Init(s) && args.t in s.up && args.t in s.down && args.id == 1
    ensures CanRun(s, steps)
    ensures var s' := Run(s, steps);
      && s'.core.next == 2 && s'.core.drawn == 1 && s'.core.pending == map[] && s'.core.calls == map[]
      && s'.core.started.Keys == {c} && s'.core.results.Keys == {c}
      && s'.up == s.up && s'.down == s.down[args.t := [Reply(1, c, a)]]
      && |s'.log| == 1 && s'.log[0].call == c
  {
    var t := args.t;
    assert After(1, 0) == 1;
    var s1 := Apply(s, Caller(Start(c, args, 0)));
    var s2 := TakenAtOnce(s1, t, Request(1, c, args.name, args.tlv), a);
    steps := GiveUp(s2, c);
    RunPrepend(s1, PeerTakes(t, Some(a), true), steps);
    steps := [PeerTakes(t, Some(a), true)] + steps;
    RunPrepend(s, Caller(Start(c, args, 0)), steps);
    steps := [Caller(Start(c, args, 0))] + steps;
  }

  /** The only request under way is answered. */
  lemma TakenAtOnce(s: State, t: Transport, m: Message, a: Answer) returns (s': State)
    requires t in s.up && t in s.down && m.Request? && s.up[t] == [] + [m] && s.down[t] == []
    ensures Enabled(s, PeerTakes(t, Some(a), true)) && s' == Apply(s, PeerTakes(t, Some(a), true))
    ensures s' == State(s.core, s.up[t := []], s.down[t := [Reply(m.id, m.call, a)]],
                        s.log + [Execution(t, m.id, m.call, m.name, m.tlv, a)])
  {
    s' := Apply(s, PeerTakes(t, Some(a), true));
    assert s.up[t][1..] == [];
    assert [] + [Reply(m.id, m.call, a)] == [Reply(m.id, m.call, a)];
  }

  /**
    One number more than there are is enough for a wrong result: a call whose request nobody has
    answered returns the answer to an abandoned call with its number.
   */
  lemma {:induction false} WrapAroundIsUnsafe(s: State, t: Transport, name: seq<Byte>, tlv: seq<Byte>, a: Answer)
    returns (steps: seq<Step>)
    requires Init(s) && t in s.up && t in s.down
    ensures CanRun(s, steps)
    ensures var s' := Run(s, steps);
      && s'.core.drawn == NUMBERS + 1 && 1 in s'.core.results && 1 in s'.core.started
      && s'.core.results[1] == Result(true, a.status, a.payload)
      && forall k :: 0 <= k < |s'.log| ==> s'.log[k].call != 1
  {
    var args := Started(t, 1, name, tlv, |a.payload|);
    var first := WholeTurn(s, args, a);
    var second := NumberDrawnAgain(Run(s, first), t, 1, args);
    RunAppend(s, first, second);
    steps := first + second;
  }

  /** Number 1 is next again after a whole turn, and the reply to the abandoned call 0 still bears it. */
  lemma {:induction false} WholeTurn(s: State, args: Started, a: Answer) returns (steps: seq<Step>)
    requires Init(s) && args.t in s.up && args.t in s.down && args.id == 1
    ensures CanRun(s, steps)
    ensures var s' := Run(s, steps);
      && s'.core.next == 1 && s'.core.drawn == NUMBERS && s'.core.pending == map[] && Fresh(s'.core, 1)
      && s'.up == s.up && s'.down == s.down[args.t := [Reply(1, 0, a)]]
      && |s'.log| == 1 && s'.log[0].call == 0
  {
    var first := AbandonedCall(s, 0, args, a);
    var s1 := Run(s, first);
    var second := FailingCalls(s1, NUMBERS - 1, 2);
    AfterModulo(2, NUMBERS - 1);
    RunAppend(s, first, second);
    steps := first + second;
  }

  /** A call that draws the number of a reply under way returns what that reply holds. */
  lemma {:induction false} NumberDrawnAgain(s: State, t: Transport, c: CallId, args: Started) returns (steps: seq<Step>)
    requires t in s.up && t in s.down && s.down[t] != [] && s.down[t][0].Reply?
    requires args.t == t && args.id == s.down[t][0].id == s.core.next && IsNumber(args.id)
    requires s.core.pending == map[] && Fresh(s.core, c)
    ensures CanRun(s, steps)
    ensures var s', a := Run(s, steps), s.down[t][0].answer;
      && s'.core.drawn == s.core.drawn + 1 && s'.core.started == s.core.started[c := args] && s'.log == s.log
      && c in s'.core.results
      && s'.core.results[c] == Result(true, a.status, Truncated(a.payload, args.bufSize))
  {
    assert After(s.core.next, 0) == s.core.next && Draws(s.core, 0, args.id);
    var s1 := Apply(s, Caller(Start(c, args, 0)));
    steps := StaleReplyIsTaken(s1, t, c);
    RunPrepend(s, Caller(Start(c, args, 0)), steps);
    steps := [Caller(Start(c, args, 0))] + steps;
  }
}
