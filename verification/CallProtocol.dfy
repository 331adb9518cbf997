/**
  The call protocol of ccrpc/source/rpc.c and ccrpc/source/rpc_port.c as a state machine whose
  steps are the critical sections: drawing a number and sending a request, handling a received
  message, the phases of a wait, and the clean-up after it.  Messages travel over FIFO
  transports.  A peer may answer a request in any way, and every answer is kept in a log.
 */
module CallProtocol {
  import opened Bytes
  import opened Sequence

  type CallId = nat
  type Transport = nat

  const STATUS_OK: U16 := 0
  const STATUS_METHOD_NOT_FOUND: U16 := 1
  const STATUS_INVALID_PARAMS: U16 := 2
  const STATUS_INTERNAL_ERROR: U16 := 3
  const STATUS_TRANSPORT_ERROR: U16 := 4
  const STATUS_TIMEOUT: U16 := 5

  datatype Answer = Answer(status: U16, payload: seq<Byte>)

  /** A message under way.  The call it belongs to is not part of the message. */
  datatype Message =
    | Request(id: U32, call: CallId, name: seq<Byte>, tlv: seq<Byte>)
    | Reply(id: U32, call: CallId, answer: Answer)
    | Foreign(frame: seq<Byte>)  // traffic of the calls the peer makes

  /** Where a caller is: between sending and waiting, asleep, or back from its wait. */
  datatype Phase = Sent | Blocked | Returned(ok: bool)

  /** `struct pending_call` and its waiter. */
  datatype Call = Call(phase: Phase, signaled: bool, done: bool, status: U16, buf: seq<Byte>)

  /** The arguments of a call, as it was sent. */
  datatype Started = Started(t: Transport, id: U32, name: seq<Byte>, tlv: seq<Byte>, bufSize: nat)

  /** What a call returns: whether its wait succeeded, the return value, and the bytes in its buffer. */
  datatype Result = Result(ok: bool, status: int, buf: seq<Byte>)

  /** The memory the callers and the receive thread share, and the history of the calls. */
  datatype Core = Core(
    next: U32,                      // g_next_seq
    pending: map<U32, CallId>,      // g_pending
    calls: map<CallId, Call>,       // allocated records and waiters
    results: map<CallId, Result>,   // what the calls that ended returned
    started: map<CallId, Started>,  // every request ever sent
    drawn: nat)                     // how many numbers were drawn

  /** A request that the peer took apart and answered, whether or not the reply could be sent. */
  datatype Execution = Execution(t: Transport, id: U32, call: CallId, name: seq<Byte>, tlv: seq<Byte>, answer: Answer)

  datatype State = State(core: Core, up: map<Transport, seq<Message>>, down: map<Transport, seq<Message>>,
                         log: seq<Execution>)

  /** The steps of a caller. */
  datatype Action =
    | Start(c: CallId, args: Started, skipped: nat)
    | StartFails(c: CallId, skipped: nat, status: U16)
    | Wait(c: CallId)
    | Wake(c: CallId)
    | TimeOut(c: CallId)
    | Finish(c: CallId)

  datatype Step =
    | Caller(action: Action)
    | PeerTakes(t: Transport, answer: Option<Answer>, sent: bool)
    | PeerSends(t: Transport, frame: seq<Byte>)
    | Receive(t: Transport, dropped: bool, response: Option<seq<Byte>>)

  /** `skipped` steps from `next` lead past pending numbers to the first that is not. */
  ghost predicate Draws(s: Core, skipped: nat, id: U32) {
    && IsNumber(s.next)
    && (forall j :: 0 <= j < skipped ==> After(s.next, j) in s.pending)
    && id == After(s.next, skipped) && id !in s.pending
  }

  ghost predicate Fresh(s: Core, c: CallId) {
    c !in s.started && c !in s.calls && c !in s.results
  }

  ghost predicate CanAct(s: Core, action: Action) {
    match action
    case Start(c, args, skipped) => Fresh(s, c) && Draws(s, skipped, args.id)
    case StartFails(c, skipped, status) =>
      && Fresh(s, c) && (status == STATUS_INTERNAL_ERROR || status == STATUS_TRANSPORT_ERROR)
      && exists id: U32 :: Draws(s, skipped, id)
    case Wait(c) => c in s.calls && s.calls[c].phase == Sent
    case Wake(c) => c in s.calls && s.calls[c].phase == Blocked && s.calls[c].signaled
    case TimeOut(c) => c in s.calls && s.calls[c].phase == Blocked
    case Finish(c) => c in s.calls && s.calls[c].phase.Returned? && c in s.started
  }

  /**
    `rpc_call_with_tlv` and `rpc_waiter_wait`.  A call that cannot allocate its record or send
    its request draws a number all the same, takes its entry out again before it unlocks, and
    returns a negative status.
   */
  ghost function Act(s: Core, action: Action): Core
    requires CanAct(s, action)
  {
    match action
    case Start(c, args, skipped) =>
      s.(next := Successor(args.id), drawn := s.drawn + skipped + 1,
         pending := s.pending[args.id := c],
         calls := s.calls[c := Call(Sent, false, false, 0, [])],
         started := s.started[c := args])
    case StartFails(c, skipped, status) =>
      s.(next := Successor(After(s.next, skipped)), drawn := s.drawn + skipped + 1,
         results := s.results[c := Result(false, 0 - status, [])])
    case Wait(c) =>
      var call := s.calls[c];
      s.(calls := s.calls[c := if call.signaled then call.(signaled := false, phase := Returned(true))
                               else call.(phase := Blocked)])
    case Wake(c) =>
      s.(calls := s.calls[c := s.calls[c].(signaled := false, phase := Returned(true))])
    case TimeOut(c) =>
      s.(calls := s.calls[c := s.calls[c].(phase := Returned(false))])
    case Finish(c) =>
      var call, ok := s.calls[c], s.calls[c].phase.ok;
      s.(pending := s.pending - {s.started[c].id}, calls := s.calls - {c},
         results := s.results[c := Result(ok, if ok then call.status else STATUS_TIMEOUT, call.buf)])
  }

  /** As much of a payload as fits into a buffer. */
  function Truncated(payload: seq<Byte>, bufSize: nat): (r: seq<Byte>)
    ensures r <= payload && |r| == if |payload| <= bufSize then |payload| else bufSize
  {
    if |payload| > bufSize then payload[..bufSize] else payload
  }

  /** `rpc_handle_response`: finds the pending call by number, fills it in and wakes its waiter. */
  ghost function HandleResponse(s: Core, id: U32, a: Answer): Core {
    if id in s.pending && s.pending[id] in s.calls && s.pending[id] in s.started then
      var c := s.pending[id];
      s.(calls := s.calls[c := s.calls[c].(status := a.status, done := true, signaled := true,
                                           buf := Truncated(a.payload, s.started[c].bufSize))])
    else s
  }

  ghost predicate Enabled(s: State, step: Step) {
    match step
    case Caller(action) => CanAct(s.core, action) && (action.Start? ==> action.args.t in s.up)
    case PeerTakes(t, _, _) => t in s.up && t in s.down && s.up[t] != []
    case PeerSends(t, _) => t in s.down
    case Receive(t, _, _) => t in s.up && t in s.down && s.down[t] != []
  }

  ghost function Apply(s: State, step: Step): State
    requires Enabled(s, step)
  {
    match step
    case Caller(action) =>
      s.(core := Act(s.core, action),
         up := if action.Start? then
                 Send(s.up, action.args.t, Request(action.args.id, action.c, action.args.name, action.args.tlv))
               else s.up)
    case PeerTakes(t, answer, sent) =>
      var item, up := s.up[t][0], s.up[t := s.up[t][1..]];
      if item.Request? && answer.Some? then
        s.(up := up, log := s.log + [Execution(t, item.id, item.call, item.name, item.tlv, answer.value)],
           down := if sent then Send(s.down, t, Reply(item.id, item.call, answer.value)) else s.down)
      else s.(up := up)
    case PeerSends(t, frame) =>
      s.(down := Send(s.down, t, Foreign(frame)))
    case Receive(t, dropped, response) =>
      var item := s.down[t][0];
      s.(core := if !dropped && item.Reply? then HandleResponse(s.core, item.id, item.answer) else s.core,
         up := if !dropped && item.Foreign? && response.Some? then Send(s.up, t, Foreign(response.value)) else s.up,
         down := s.down[t := s.down[t][1..]])
  }

  ghost function Send(channel: map<Transport, seq<Message>>, t: Transport, item: Message): map<Transport, seq<Message>>
    requires t in channel
  {
    channel[t := channel[t] + [item]]
  }

  /** No call was made, nothing was answered, and nothing is under way on any transport. */
  ghost predicate Init(s: State) {
    && s.core == Core(1, map[], map[], map[], map[], 0) && s.log == []
    && (forall t :: t in s.up ==> s.up[t] == [])
    && (forall t :: t in s.down ==> s.down[t] == [])
  }

  // ----- what holds in every run: each message and each answer belongs to a call -----

  ghost predicate InTable(s: Core, c: CallId) {
    c in s.started && s.started[c].id in s.pending && s.pending[s.started[c].id] == c
  }

  ghost predicate HasRecord(s: Core, id: U32) {
    id in s.pending && s.pending[id] in s.calls && s.pending[id] in s.started && s.started[s.pending[id]].id == id
  }

  /** The table and the allocated records match one to one. */
  ghost predicate Tabled(s: Core) {
    && (forall c :: c in s.calls ==> InTable(s, c))
    && (forall id :: id in s.pending ==> HasRecord(s, id))
  }

  /** These are the arguments call `c` was started with. */
  ghost predicate OfCall(started: map<CallId, Started>, c: CallId, t: Transport, id: U32, name: seq<Byte>,
                         tlv: seq<Byte>)
  {
    c in started && started[c] == Started(t, id, name, tlv, started[c].bufSize)
  }

  /** Every execution answers a request that was sent. */
  ghost predicate Logged(started: map<CallId, Started>, log: seq<Execution>) {
    forall k :: 0 <= k < |log| ==> OfCall(started, log[k].call, log[k].t, log[k].id, log[k].name, log[k].tlv)
  }

  ghost predicate GaveAt(log: seq<Execution>, k: nat, c: CallId, id: U32, a: Answer) {
    k < |log| && log[k].call == c && log[k].id == id && log[k].answer == a
  }

  /** A message under way is the request of a call that was started, or an answer that was given. */
  ghost predicate Genuine(started: map<CallId, Started>, log: seq<Execution>, t: Transport, item: Message) {
    match item
    case Request(id, c, name, tlv) => OfCall(started, c, t, id, name, tlv)
    case Reply(id, c, a) => exists k :: GaveAt(log, k, c, id, a)
    case Foreign(_) => true
  }

  ghost predicate Traffic(started: map<CallId, Started>, log: seq<Execution>, channel: map<Transport, seq<Message>>) {
    forall t, i :: t in channel && 0 <= i < |channel[t]| ==> Genuine(started, log, t, channel[t][i])
  }

  /** No call is executed twice, and a request under way is neither executed nor under way twice. */
  ghost predicate Once(up: map<Transport, seq<Message>>, log: seq<Execution>) {
    && (forall i, j :: 0 <= i < j < |log| ==> log[i].call != log[j].call)
    && (forall t, i, k :: t in up && 0 <= i < |up[t]| && up[t][i].Request? && 0 <= k < |log| ==>
      up[t][i].call != log[k].call)
    && (forall t, i, j :: t in up && 0 <= i < j < |up[t]| && up[t][i].Request? && up[t][j].Request? ==>
      up[t][i].call != up[t][j].call)
  }

  ghost predicate Sane(s: State) {
    && Tabled(s.core) && Logged(s.core.started, s.log) && Once(s.up, s.log)
    && Traffic(s.core.started, s.log, s.up) && Traffic(s.core.started, s.log, s.down)
  }

  // ----- what holds as long as no number is drawn that a message under way still bears -----

  /** The status and the bytes are those of execution `k` of call `c`, cut to the buffer of the call. */
  ghost predicate AnswerAt(started: map<CallId, Started>, log: seq<Execution>, k: nat, c: CallId, status: int,
                           buf: seq<Byte>)
  {
    && k < |log| && log[k].call == c && c in started
    && status == log[k].answer.status && buf == Truncated(log[k].answer.payload, started[c].bufSize)
  }

  /** What the peer answered to call `c`. */
  ghost predicate Answered(started: map<CallId, Started>, log: seq<Execution>, c: CallId, status: int, buf: seq<Byte>) {
    exists k :: AnswerAt(started, log, k, c, status, buf)
  }

  ghost predicate GoodCall(s: Core, log: seq<Execution>, c: CallId, call: Call) {
    && (call.done ==> Answered(s.started, log, c, call.status, call.buf))
    && (call.signaled ==> call.done)
    && (call.phase == Returned(true) ==> call.done)
    && (call.phase != Returned(true) && call.done ==> call.signaled)
  }

  ghost predicate GoodResult(s: Core, log: seq<Execution>, c: CallId, r: Result) {
    && c !in s.calls
    && (r.ok ==> Answered(s.started, log, c, r.status, r.buf))
  }

  ghost predicate GoodCalls(s: Core, log: seq<Execution>) {
    && (forall c :: c in s.calls ==> GoodCall(s, log, c, s.calls[c]))
    && (forall c :: c in s.results ==> GoodResult(s, log, c, s.results[c]))
    && (forall c :: c in s.started ==> c in s.calls || c in s.results)
  }

  ghost predicate Bears(item: Message, id: U32) {
    !item.Foreign? && item.id == id
  }

  /** A message whose number is pending belongs to the pending call. */
  ghost predicate Owned(pending: map<U32, CallId>, item: Message) {
    forall id :: id in pending && Bears(item, id) ==> pending[id] == item.call
  }

  ghost predicate AllOwned(pending: map<U32, CallId>, channel: map<Transport, seq<Message>>) {
    forall t, i :: t in channel && 0 <= i < |channel[t]| ==> Owned(pending, channel[t][i])
  }

  ghost predicate Safe(s: State) {
    GoodCalls(s.core, s.log) && AllOwned(s.core.pending, s.up) && AllOwned(s.core.pending, s.down)
  }

  /** No message in the channel bears the number. */
  ghost predicate Unborne(channel: map<Transport, seq<Message>>, id: U32) {
    forall t, i :: t in channel && 0 <= i < |channel[t]| ==> !Bears(channel[t][i], id)
  }

  /** A call that starts draws a number that no message under way bears. */
  ghost predicate Clean(s: State, step: Step) {
    step.Caller? && step.action.Start? ==> Unborne(s.up, step.action.args.id) && Unborne(s.down, step.action.args.id)
  }

  /** Before wrap-around the numbers drawn so far are 1 to `drawn`, each given to one call. */
  ghost predicate Numbered(s: Core) {
    && s.drawn <= NUMBERS && s.next == (if s.drawn < NUMBERS then s.drawn + 1 else 1)
    && (forall c :: c in s.started ==> 1 <= s.started[c].id <= s.drawn)
    && (forall c, d :: c in s.started && d in s.started && c != d ==> s.started[c].id != s.started[d].id)
  }

  // ----- every step keeps the messages and executions sane -----

  lemma StartKeepsTable(s: Core, c: CallId, args: Started, skipped: nat)
    requires Tabled(s) && CanAct(s, Start(c, args, skipped))
    ensures Tabled(Act(s, Start(c, args, skipped)))
  {
    var s' := Act(s, Start(c, args, skipped));
    forall d | d in s'.calls ensures InTable(s', d) {
      assert d != c ==> InTable(s, d);
    }
    forall id | id in s'.pending ensures HasRecord(s', id) {
      assert id != args.id ==> HasRecord(s, id);
    }
  }

  lemma StartFailsKeepsTable(s: Core, c: CallId, skipped: nat, status: U16)
    requires Tabled(s) && CanAct(s, StartFails(c, skipped, status))
    ensures Tabled(Act(s, StartFails(c, skipped, status)))
  {
    var s' := Act(s, StartFails(c, skipped, status));
    assert forall d :: InTable(s, d) ==> InTable(s', d);
    assert forall id :: HasRecord(s, id) ==> HasRecord(s', id);
  }

  lemma UpdateKeepsTable(s: Core, c: CallId, call: Call)
    requires Tabled(s) && c in s.calls
    ensures Tabled(s.(calls := s.calls[c := call]))
  {
    var s' := s.(calls := s.calls[c := call]);
    forall d | d in s'.calls ensures InTable(s', d) {
      assert InTable(s, d);
    }
    forall id | id in s'.pending ensures HasRecord(s', id) {
      assert HasRecord(s, id);
    }
  }

  lemma FinishKeepsTable(s: Core, c: CallId)
    requires Tabled(s) && CanAct(s, Finish(c))
    ensures Tabled(Act(s, Finish(c)))
  {
    var s' := Act(s, Finish(c));
    assert InTable(s, c);
    forall d | d in s'.calls ensures InTable(s', d) {
      assert InTable(s, d);
    }
    forall id | id in s'.pending ensures HasRecord(s', id) {
      assert HasRecord(s, id);
    }
  }

  lemma ActKeepsTable(s: Core, action: Action)
    requires Tabled(s) && CanAct(s, action)
    ensures Tabled(Act(s, action))
  {
    match action
    case Start(c, args, skipped) => StartKeepsTable(s, c, args, skipped);
    case StartFails(c, skipped, status) => StartFailsKeepsTable(s, c, skipped, status);
    case Wait(c) => UpdateKeepsTable(s, c, Act(s, action).calls[c]);
    case Wake(c) => UpdateKeepsTable(s, c, Act(s, action).calls[c]);
    case TimeOut(c) => UpdateKeepsTable(s, c, Act(s, action).calls[c]);
    case Finish(c) => FinishKeepsTable(s, c);
  }

  /** Messages stay genuine when another call is started. */
  lemma StartedTraffic(started: map<CallId, Started>, log: seq<Execution>, channel: map<Transport, seq<Message>>,
                       c: CallId, args: Started)
    requires Traffic(started, log, channel) && c !in started
    ensures Traffic(started[c := args], log, channel)
  {
    forall t, i | t in channel && 0 <= i < |channel[t]| ensures Genuine(started[c := args], log, t, channel[t][i]) {
      assert Genuine(started, log, t, channel[t][i]);
    }
  }

  /** Messages stay genuine when another request is answered. */
  lemma ExecutedTraffic(started: map<CallId, Started>, log: seq<Execution>, channel: map<Transport, seq<Message>>,
                        e: Execution)
    requires Traffic(started, log, channel)
    ensures Traffic(started, log + [e], channel)
  {
    forall t, i | t in channel && 0 <= i < |channel[t]| ensures Genuine(started, log + [e], t, channel[t][i]) {
      var m := channel[t][i];
      assert Genuine(started, log, t, m);
      if m.Reply? {
        var k: nat :| GaveAt(log, k, m.call, m.id, m.answer);
        assert GaveAt(log + [e], k, m.call, m.id, m.answer);
      }
    }
  }

  lemma SentTraffic(started: map<CallId, Started>, log: seq<Execution>, channel: map<Transport, seq<Message>>,
                    t: Transport, item: Message)
    requires Traffic(started, log, channel) && t in channel && Genuine(started, log, t, item)
    ensures Traffic(started, log, Send(channel, t, item))
  {
  }

  lemma TakenTraffic(started: map<CallId, Started>, log: seq<Execution>, channel: map<Transport, seq<Message>>,
                     t: Transport)
    requires Traffic(started, log, channel) && t in channel && channel[t] != []
    ensures Traffic(started, log, channel[t := channel[t][1..]])
    ensures Genuine(started, log, t, channel[t][0])
  {
    var channel' := channel[t := channel[t][1..]];
    forall u, i | u in channel' && 0 <= i < |channel'[u]| ensures Genuine(started, log, u, channel'[u][i]) {
      assert Genuine(started, log, u, channel[u][if u == t then i + 1 else i]);
    }
  }

  /** A new request is not under way and not executed. */
  lemma StartedOnce(s: State, t: Transport, item: Message)
    requires Sane(s) && t in s.up && (item.Request? ==> item.call !in s.core.started)
    ensures Once(Send(s.up, t, item), s.log)
  {
    assert forall u, i :: u in s.up && 0 <= i < |s.up[u]| ==> Genuine(s.core.started, s.log, u, s.up[u][i]);
    assert forall k :: 0 <= k < |s.log| ==>
      OfCall(s.core.started, s.log[k].call, s.log[k].t, s.log[k].id, s.log[k].name, s.log[k].tlv);
  }

  lemma TakenOnce(up: map<Transport, seq<Message>>, log: seq<Execution>, t: Transport)
    requires Once(up, log) && t in up && up[t] != []
    ensures Once(up[t := up[t][1..]], log)
  {
  }

  /** The request taken off a channel is under way no more. */
  lemma ExecutedOnce(s: State, t: Transport, e: Execution)
    requires Sane(s) && t in s.up && s.up[t] != [] && s.up[t][0].Request? && e.call == s.up[t][0].call
    ensures Once(s.up[t := s.up[t][1..]], s.log + [e])
  {
    var up: map<Transport, seq<Message>> := s.up[t := s.up[t][1..]];
    TakenOnce(s.up, s.log, t);
    assert Genuine(s.core.started, s.log, t, s.up[t][0]);
    forall u, i | u in up && 0 <= i < |up[u]| && up[u][i].Request? ensures up[u][i].call != e.call {
      assert u != t ==> Genuine(s.core.started, s.log, u, s.up[u][i]);
    }
  }

  lemma ExecutedLogged(started: map<CallId, Started>, log: seq<Execution>, e: Execution)
    requires Logged(started, log) && OfCall(started, e.call, e.t, e.id, e.name, e.tlv)
    ensures Logged(started, log + [e])
  {
  }

  lemma CallerSane(s: State, action: Action)
    requires Sane(s) && Enabled(s, Caller(action))
    ensures Sane(Apply(s, Caller(action)))
  {
    ActKeepsTable(s.core, action);
    if action.Start? {
      var c, args := action.c, action.args;
      var m := Request(args.id, c, args.name, args.tlv);
      StartedTraffic(s.core.started, s.log, s.up, c, args);
      StartedTraffic(s.core.started, s.log, s.down, c, args);
      SentTraffic(s.core.started[c := args], s.log, s.up, args.t, m);
      StartedOnce(s, args.t, m);
    }
  }

  lemma PeerTakesSane(s: State, t: Transport, answer: Option<Answer>, sent: bool)
    requires Sane(s) && Enabled(s, PeerTakes(t, answer, sent))
    ensures Sane(Apply(s, PeerTakes(t, answer, sent)))
  {
    var item, started := s.up[t][0], s.core.started;
    var up := s.up[t := s.up[t][1..]];
    TakenTraffic(started, s.log, s.up, t);
    TakenOnce(s.up, s.log, t);
    if item.Request? && answer.Some? {
      var e := Execution(t, item.id, item.call, item.name, item.tlv, answer.value);
      ExecutedTraffic(started, s.log, up, e);
      ExecutedTraffic(started, s.log, s.down, e);
      ExecutedOnce(s, t, e);
      ExecutedLogged(started, s.log, e);
      assert GaveAt(s.log + [e], |s.log|, item.call, item.id, answer.value);
      SentTraffic(started, s.log + [e], s.down, t, Reply(item.id, item.call, answer.value));
    }
  }

  lemma ResponseKeepsTable(s: Core, id: U32, a: Answer)
    requires Tabled(s)
    ensures Tabled(HandleResponse(s, id, a))
  {
    if id in s.pending {
      assert HasRecord(s, id);
      UpdateKeepsTable(s, s.pending[id], HandleResponse(s, id, a).calls[s.pending[id]]);
    }
  }

  lemma ReceiveSane(s: State, t: Transport, dropped: bool, response: Option<seq<Byte>>)
    requires Sane(s) && Enabled(s, Receive(t, dropped, response))
    ensures Sane(Apply(s, Receive(t, dropped, response)))
  {
    TakenTraffic(s.core.started, s.log, s.down, t);
    var item := s.down[t][0];
    if !dropped && item.Reply? {
      ResponseKeepsTable(s.core, item.id, item.answer);
    }
    if response.Some? {
      SentTraffic(s.core.started, s.log, s.up, t, Foreign(response.value));
      StartedOnce(s, t, Foreign(response.value));
    }
  }

  /** Every step keeps table, messages and executions in agreement, however many numbers were drawn. */
  lemma StepSane(s: State, step: Step)
    requires Sane(s) && Enabled(s, step)
    ensures Sane(Apply(s, step))
  {
    match step
    case Caller(action) => CallerSane(s, action);
    case PeerTakes(t, answer, sent) => PeerTakesSane(s, t, answer, sent);
    case PeerSends(t, frame) => SentTraffic(s.core.started, s.log, s.down, t, Foreign(frame));
    case Receive(t, dropped, response) => ReceiveSane(s, t, dropped, response);
  }

  // ----- clean steps keep calls and results right -----

  lemma StartKeepsCalls(s: Core, c: CallId, args: Started, skipped: nat, log: seq<Execution>)
    requires GoodCalls(s, log) && Tabled(s) && CanAct(s, Start(c, args, skipped))
    ensures GoodCalls(Act(s, Start(c, args, skipped)), log)
  {
    var s' := Act(s, Start(c, args, skipped));
    forall d | d in s'.calls ensures GoodCall(s', log, d, s'.calls[d]) {
      if d != c {
        assert GoodCall(s, log, d, s.calls[d]) && InTable(s, d);
        AnswerStays(s.started, s'.started, log, log, d, s.calls[d].status, s.calls[d].buf);
      }
    }
    forall d | d in s'.results ensures GoodResult(s', log, d, s'.results[d]) {
      assert GoodResult(s, log, d, s.results[d]);
      AnswerStays(s.started, s'.started, log, log, d, s.results[d].status, s.results[d].buf);
    }
  }

  /** An answer stays the answer as calls are started and requests are answered. */
  lemma AnswerStays(started: map<CallId, Started>, started': map<CallId, Started>, log: seq<Execution>,
                    log': seq<Execution>, c: CallId, status: int, buf: seq<Byte>)
    requires log <= log' && (c in started ==> c in started' && started'[c] == started[c])
    ensures Answered(started, log, c, status, buf) ==> Answered(started', log', c, status, buf)
  {
    if Answered(started, log, c, status, buf) {
      var k: nat :| AnswerAt(started, log, k, c, status, buf);
      assert AnswerAt(started', log', k, c, status, buf);
    }
  }

  lemma ExecutedKeepsCalls(s: Core, log: seq<Execution>, e: Execution)
    requires GoodCalls(s, log)
    ensures GoodCalls(s, log + [e])
  {
    forall d | d in s.calls ensures GoodCall(s, log + [e], d, s.calls[d]) {
      assert GoodCall(s, log, d, s.calls[d]);
      AnswerStays(s.started, s.started, log, log + [e], d, s.calls[d].status, s.calls[d].buf);
    }
    forall d | d in s.results ensures GoodResult(s, log + [e], d, s.results[d]) {
      assert GoodResult(s, log, d, s.results[d]);
      AnswerStays(s.started, s.started, log, log + [e], d, s.results[d].status, s.results[d].buf);
    }
  }

  lemma StartFailsKeepsCalls(s: Core, c: CallId, skipped: nat, status: U16, log: seq<Execution>)
    requires GoodCalls(s, log) && CanAct(s, StartFails(c, skipped, status))
    ensures GoodCalls(Act(s, StartFails(c, skipped, status)), log)
  {
    var s' := Act(s, StartFails(c, skipped, status));
    assert forall d, call :: GoodCall(s, log, d, call) ==> GoodCall(s', log, d, call);
    assert forall d, r :: GoodResult(s, log, d, r) ==> GoodResult(s', log, d, r);
  }

  /** A record may change as long as it stays good. */
  lemma UpdateKeepsCalls(s: Core, c: CallId, call: Call, log: seq<Execution>)
    requires GoodCalls(s, log) && c in s.calls && GoodCall(s, log, c, call)
    ensures GoodCalls(s.(calls := s.calls[c := call]), log)
  {
    var s' := s.(calls := s.calls[c := call]);
    forall d | d in s'.calls ensures GoodCall(s', log, d, s'.calls[d]) {
      assert d != c ==> GoodCall(s, log, d, s.calls[d]);
    }
    forall d | d in s'.results ensures GoodResult(s', log, d, s'.results[d]) {
      assert GoodResult(s, log, d, s.results[d]);
    }
  }

  lemma FinishKeepsCalls(s: Core, c: CallId, log: seq<Execution>)
    requires GoodCalls(s, log) && CanAct(s, Finish(c))
    ensures GoodCalls(Act(s, Finish(c)), log)
  {
    var s' := Act(s, Finish(c));
    assert GoodCall(s, log, c, s.calls[c]);
    forall d | d in s'.calls ensures GoodCall(s', log, d, s'.calls[d]) {
      assert GoodCall(s, log, d, s.calls[d]);
    }
    forall d | d in s'.results ensures GoodResult(s', log, d, s'.results[d]) {
      assert d != c ==> GoodResult(s, log, d, s.results[d]);
    }
  }

  lemma ActKeepsCalls(s: Core, action: Action, log: seq<Execution>)
    requires Tabled(s) && GoodCalls(s, log) && CanAct(s, action)
    ensures GoodCalls(Act(s, action), log)
  {
    match action
    case Start(c, args, skipped) => StartKeepsCalls(s, c, args, skipped, log);
    case StartFails(c, skipped, status) => StartFailsKeepsCalls(s, c, skipped, status, log);
    case Wait(c) => UpdateKeepsCalls(s, c, Act(s, action).calls[c], log);
    case Wake(c) => UpdateKeepsCalls(s, c, Act(s, action).calls[c], log);
    case TimeOut(c) => UpdateKeepsCalls(s, c, Act(s, action).calls[c], log);
    case Finish(c) => FinishKeepsCalls(s, c, log);
  }

  /** A reply to the pending call fills in the right record. */
  lemma ResponseKeepsCalls(s: State, t: Transport)
    requires Sane(s) && Safe(s) && t in s.down && s.down[t] != [] && s.down[t][0].Reply?
    ensures GoodCalls(HandleResponse(s.core, s.down[t][0].id, s.down[t][0].answer), s.log)
  {
    var m, core := s.down[t][0], s.core;
    assert Genuine(core.started, s.log, t, m) && Owned(core.pending, m);
    if m.id in core.pending {
      assert HasRecord(core, m.id) && Bears(m, m.id);
      var k: nat :| GaveAt(s.log, k, m.call, m.id, m.answer);
      var call := HandleResponse(core, m.id, m.answer).calls[m.call];
      assert AnswerAt(core.started, s.log, k, m.call, call.status, call.buf);
      UpdateKeepsCalls(core, m.call, call, s.log);
    }
  }

  lemma TakenOwned(pending: map<U32, CallId>, channel: map<Transport, seq<Message>>, t: Transport)
    requires AllOwned(pending, channel) && t in channel && channel[t] != []
    ensures AllOwned(pending, channel[t := channel[t][1..]])
  {
    var channel' := channel[t := channel[t][1..]];
    forall u, i | u in channel' && 0 <= i < |channel'[u]| ensures Owned(pending, channel'[u][i]) {
      assert Owned(pending, channel[u][if u == t then i + 1 else i]);
    }
  }

  lemma SentOwned(pending: map<U32, CallId>, channel: map<Transport, seq<Message>>, t: Transport, item: Message)
    requires AllOwned(pending, channel) && t in channel && Owned(pending, item)
    ensures AllOwned(pending, Send(channel, t, item))
  {
  }

  /** A number that no message bears can become pending, and any number can cease to be. */
  lemma ActOwned(s: Core, action: Action, channel: map<Transport, seq<Message>>)
    requires CanAct(s, action) && AllOwned(s.pending, channel)
    requires action.Start? ==> Unborne(channel, action.args.id)
    ensures AllOwned(Act(s, action).pending, channel)
  {
    forall t, i | t in channel && 0 <= i < |channel[t]| ensures Owned(Act(s, action).pending, channel[t][i]) {
      assert Owned(s.pending, channel[t][i]);
      assert action.Start? ==> !Bears(channel[t][i], action.args.id);
    }
  }

  /** A clean step keeps every record and every result that of the answer to its own call. */
  lemma StepSafe(s: State, step: Step)
    requires Sane(s) && Safe(s) && Enabled(s, step) && Clean(s, step)
    ensures Safe(Apply(s, step))
  {
    match step
    case Caller(action) => CallerSafe(s, action);
    case PeerTakes(t, answer, sent) => PeerTakesSafe(s, t, answer, sent);
    case PeerSends(t, frame) => SentOwned(s.core.pending, s.down, t, Foreign(frame));
    case Receive(t, dropped, response) => ReceiveSafe(s, t, dropped, response);
  }

  lemma CallerSafe(s: State, action: Action)
    requires Sane(s) && Safe(s) && Enabled(s, Caller(action)) && Clean(s, Caller(action))
    ensures Safe(Apply(s, Caller(action)))
  {
    ActKeepsCalls(s.core, action, s.log);
    ActOwned(s.core, action, s.up);
    ActOwned(s.core, action, s.down);
    if action.Start? {
      var args := action.args;
      SentOwned(Act(s.core, action).pending, s.up, args.t, Request(args.id, action.c, args.name, args.tlv));
    }
  }

  /** The answer to a request bears the number and belongs to the call of the request. */
  lemma PeerTakesSafe(s: State, t: Transport, answer: Option<Answer>, sent: bool)
    requires Safe(s) && Enabled(s, PeerTakes(t, answer, sent))
    ensures Safe(Apply(s, PeerTakes(t, answer, sent)))
  {
    var item := s.up[t][0];
    TakenOwned(s.core.pending, s.up, t);
    if item.Request? && answer.Some? {
      ExecutedKeepsCalls(s.core, s.log, Execution(t, item.id, item.call, item.name, item.tlv, answer.value));
      assert Owned(s.core.pending, item);
      assert forall id :: Bears(Reply(item.id, item.call, answer.value), id) ==> Bears(item, id);
      SentOwned(s.core.pending, s.down, t, Reply(item.id, item.call, answer.value));
    }
  }

  lemma ReceiveSafe(s: State, t: Transport, dropped: bool, response: Option<seq<Byte>>)
    requires Sane(s) && Safe(s) && Enabled(s, Receive(t, dropped, response))
    ensures Safe(Apply(s, Receive(t, dropped, response)))
  {
    TakenOwned(s.core.pending, s.down, t);
    if !dropped && s.down[t][0].Reply? {
      ResponseKeepsCalls(s, t);
    }
    if response.Some? {
      SentOwned(s.core.pending, s.up, t, Foreign(response.value));
    }
  }

  /** A call that draws a number some message still bears leaves that message to the wrong call. */
  lemma UncleanUnsafe(s: State, step: Step)
    requires Sane(s) && Enabled(s, step) && !Clean(s, step)
    ensures !Safe(Apply(s, step))
  {
    var c, args, s' := step.action.c, step.action.args, Apply(s, step);
    assert Unborne(s.up, args.id) ==> !Unborne(s.down, args.id);
    var channel := if Unborne(s.up, args.id) then s.down else s.up;
    var t, i :| t in channel && 0 <= i < |channel[t]| && Bears(channel[t][i], args.id);
    var m := channel[t][i];
    assert Genuine(s.core.started, s.log, t, m);
    if m.Reply? {
      var k: nat :| GaveAt(s.log, k, m.call, m.id, m.answer);
      assert OfCall(s.core.started, s.log[k].call, s.log[k].t, s.log[k].id, s.log[k].name, s.log[k].tlv);
    }
    assert m.call != c && s'.core.pending[args.id] == c && !Owned(s'.core.pending, m);
    assert (if Unborne(s.up, args.id) then s'.down else s'.up)[t][i] == m;
  }

  /** A step keeps every record and every result right, and no message misplaced, exactly if it is clean. */
  lemma StepSafeIff(s: State, step: Step)
    requires Sane(s) && Safe(s) && Enabled(s, step)
    ensures Safe(Apply(s, step)) <==> Clean(s, step)
  {
    if Clean(s, step) {
      StepSafe(s, step);
    } else {
      UncleanUnsafe(s, step);
    }
  }

  // ----- until the numbers wrap around, every step is clean -----

  /** Until the numbers wrap around, the next one is never pending. */
  lemma NothingSkipped(s: Core, skipped: nat, id: U32)
    requires Numbered(s) && Tabled(s) && Draws(s, skipped, id) && s.drawn + skipped < NUMBERS
    ensures skipped == 0 && id == s.drawn + 1
  {
    assert s.next in s.pending ==> HasRecord(s, s.next);
    assert After(s.next, 0) == s.next;
  }

  lemma StartNumbered(s: Core, c: CallId, args: Started, skipped: nat)
    requires Numbered(s) && Tabled(s) && CanAct(s, Start(c, args, skipped)) && s.drawn + skipped < NUMBERS
    ensures Numbered(Act(s, Start(c, args, skipped)))
  {
    NothingSkipped(s, skipped, args.id);
  }

  lemma StartFailsNumbered(s: Core, c: CallId, skipped: nat, status: U16)
    requires Numbered(s) && Tabled(s) && CanAct(s, StartFails(c, skipped, status)) && s.drawn + skipped < NUMBERS
    ensures Numbered(Act(s, StartFails(c, skipped, status)))
  {
    NothingSkipped(s, skipped, After(s.next, skipped));
  }

  lemma ActNumbered(s: Core, action: Action)
    requires Numbered(s) && Tabled(s) && CanAct(s, action) && Act(s, action).drawn <= NUMBERS
    ensures Numbered(Act(s, action))
  {
    match action
    case Start(c, args, skipped) => StartNumbered(s, c, args, skipped);
    case StartFails(c, skipped, status) => StartFailsNumbered(s, c, skipped, status);
    case _ =>
  }

  /** Every message bears a number drawn before. */
  lemma DrawnBefore(s: State, channel: map<Transport, seq<Message>>, id: U32)
    requires Sane(s) && Numbered(s.core) && s.core.drawn < id && Traffic(s.core.started, s.log, channel)
    ensures Unborne(channel, id)
  {
    forall t, i | t in channel && 0 <= i < |channel[t]| ensures !Bears(channel[t][i], id) {
      var m := channel[t][i];
      assert Genuine(s.core.started, s.log, t, m);
      if m.Reply? {
        var k: nat :| GaveAt(s.log, k, m.call, m.id, m.answer);
        assert OfCall(s.core.started, s.log[k].call, s.log[k].t, s.log[k].id, s.log[k].name, s.log[k].tlv);
      }
    }
  }

  lemma StepNumbered(s: State, step: Step)
    requires Sane(s) && Numbered(s.core) && Enabled(s, step) && Apply(s, step).core.drawn <= NUMBERS
    ensures Numbered(Apply(s, step).core) && Clean(s, step)
  {
    if step.Caller? {
      ActNumbered(s.core, step.action);
      if step.action.Start? {
        NothingSkipped(s.core, step.action.skipped, step.action.args.id);
        DrawnBefore(s, s.up, step.action.args.id);
        DrawnBefore(s, s.down, step.action.args.id);
      }
    }
  }
}
