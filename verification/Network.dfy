/**
  The whole system on byte streams: callers and their peers exchange frames over transports
  that deliver bytes in order and in chunks of any size.  Every run of it is matched by a run
  of the call protocol, so what holds of calls there holds here.
 */
module Network {
  import opened Basics
  import opened Bytes
  import opened Codec
  import opened Framing
  import opened CallProtocol
  import opened CallRuns
  import opened Dispatch

  /** One direction of a transport: what the receiver keeps for reassembly, and what is under way. */
  datatype Pipe = Pipe(kept: seq<Byte>, wire: seq<Byte>)

  /** A request that a peer took apart and answered, and when. */
  datatype Service = Service(t: Transport, id: U32, name: seq<Byte>, tlv: seq<Byte>, now: nat)

  datatype Net = Net(core: Core, up: map<Transport, Pipe>, down: map<Transport, Pipe>, log: seq<Service>)

  /**
    A chunk of `n` bytes arrives.  `buffer` says for each frame completed by it whether its
    message buffer can be allocated; for each message dispatched then, `moment` says when it is
    served and `reply` whether a response to it can be sent.
   */
  datatype Chunk = Chunk(n: nat, buffer: nat -> bool, reply: nat -> bool, moment: nat -> nat)

  datatype NetStep =
    | Calls(action: Action)
    | PeerReceives(t: Transport, chunk: Chunk)
    | PeerCalls(t: Transport, id: U32, name: seq<Byte>, tlv: seq<Byte>)
    | Receives(t: Transport, chunk: Chunk)

  /** The parties: this machine's method table, and that of the peer behind each transport. */
  datatype Parties = Parties(mine: Methods, peer: Transport -> Methods)

  /** What can happen next; a result that overruns its buffer is the end of the model. */
  ghost predicate Possible(n: Net, step: NetStep, p: Parties) {
    match step
    case Calls(action) =>
      CanAct(n.core, action)
      && (action.Start? ==> action.args.t in n.up && Sendable(action.args.name, action.args.tlv))
    case PeerReceives(t, chunk) =>
      && t in n.up && t in n.down && chunk.n <= |n.up[t].wire|
      && Fits(p.peer(t), Messages(n.up[t], chunk), 0, chunk)
    case PeerCalls(t, _, name, tlv) => t in n.down && Sendable(name, tlv)
    case Receives(t, chunk) =>
      && t in n.up && t in n.down && chunk.n <= |n.down[t].wire|
      && Fits(p.mine, Messages(n.down[t], chunk), 0, chunk)
  }

  /** The results of none of the messages overrun their buffer. */
  ghost predicate Fits(methods: Methods, msgs: seq<seq<Byte>>, from: nat, chunk: Chunk) {
    forall j :: 0 <= j < |msgs| ==> !Overruns(methods, chunk.moment(from + j), msgs[j])
  }

  /** `rpc_on_data` on one pipe: the messages dispatched, and the pipe afterwards. */
  ghost function Stream(pipe: Pipe, chunk: Chunk): seq<Byte>
    requires chunk.n <= |pipe.wire|
  {
    pipe.kept + pipe.wire[..chunk.n]
  }

  ghost function Messages(pipe: Pipe, chunk: Chunk): seq<seq<Byte>>
    requires chunk.n <= |pipe.wire|
  {
    Delivered(Frames(Stream(pipe, chunk)), 0, chunk.buffer)
  }

  ghost function Drained(pipe: Pipe, chunk: Chunk): Pipe
    requires chunk.n <= |pipe.wire|
  {
    Pipe(Leftover(Stream(pipe, chunk)), pipe.wire[chunk.n..])
  }

  ghost function Written(pipe: Pipe, bytes: seq<Byte>): Pipe {
    pipe.(wire := pipe.wire + bytes)
  }

  /** The responses sent while the messages are dispatched one after the other. */
  ghost function Replies(methods: Methods, msgs: seq<seq<Byte>>, from: nat, chunk: Chunk): seq<Byte>
    decreases msgs
  {
    if msgs == [] then []
    else
      ReplySent(methods, chunk.moment(from), msgs[0], chunk.reply(from)) + Replies(methods, msgs[1..], from + 1, chunk)
  }

  ghost function ReplySent(methods: Methods, now: nat, msg: seq<Byte>, sent: bool): seq<Byte> {
    if sent && ReplyTo(methods, now, msg).Some? then ReplyTo(methods, now, msg).value else []
  }

  /** The requests served while the messages are dispatched one after the other. */
  ghost function Services(t: Transport, msgs: seq<seq<Byte>>, from: nat, chunk: Chunk): seq<Service>
    decreases msgs
  {
    if msgs == [] then []
    else ServiceOf(t, chunk.moment(from), msgs[0]) + Services(t, msgs[1..], from + 1, chunk)
  }

  ghost function ServiceOf(t: Transport, now: nat, msg: seq<Byte>): seq<Service> {
    if IsServed(msg) then
      var r := ReadRequest(msg).value;
      [Service(t, r.0, r.1, r.2, now)]
    else []
  }

  /** The pending calls after the messages were dispatched one after the other. */
  ghost function Handled(core: Core, msgs: seq<seq<Byte>>): Core
    decreases msgs
  {
    if msgs == [] then core else Handled(HandleMessage(core, msgs[0]), msgs[1..])
  }

  ghost function HandleMessage(core: Core, msg: seq<Byte>): Core {
    if IsResponse(msg) && ReadResponse(msg).Some? then
      HandleResponse(core, ReadResponse(msg).value.0, ReadResponse(msg).value.1)
    else core
  }

  ghost function Next(n: Net, step: NetStep, p: Parties): Net
    requires Possible(n, step, p)
  {
    match step
    case Calls(action) =>
      n.(core := Act(n.core, action),
         up := if action.Start? then
                 var args := action.args;
                 n.up[args.t := Written(n.up[args.t], RequestBytes(args.id, args.name, args.tlv))]
               else n.up)
    case PeerReceives(t, chunk) =>
      var msgs := Messages(n.up[t], chunk);
      n.(up := n.up[t := Drained(n.up[t], chunk)],
         down := n.down[t := Written(n.down[t], Replies(p.peer(t), msgs, 0, chunk))],
         log := n.log + Services(t, msgs, 0, chunk))
    case PeerCalls(t, id, name, tlv) =>
      n.(down := n.down[t := Written(n.down[t], RequestBytes(id, name, tlv))])
    case Receives(t, chunk) =>
      var msgs := Messages(n.down[t], chunk);
      n.(core := Handled(n.core, msgs),
         up := n.up[t := Written(n.up[t], Replies(p.mine, msgs, 0, chunk))],
         down := n.down[t := Drained(n.down[t], chunk)])
  }

  // ----- what a stretch of a stream of frames holds -----

  ghost predicate AllFrames(fs: seq<seq<Byte>>) {
    forall i :: 0 <= i < |fs| ==> IsFrame(fs[i])
  }

  /** A beginning of a stream of frames holds the first few of them; the rest is still to come. */
  lemma {:induction false} FramesOfPrefix(fs: seq<seq<Byte>>, s: seq<Byte>, rest: seq<Byte>) returns (k: nat)
    requires AllFrames(fs) && s + rest == Flatten(fs)
    ensures k <= |fs| && Frames(s) == fs[..k] && Leftover(s) + rest == Flatten(fs[k..])
    decreases fs
  {
    k := 0;
    if fs != [] && |s| >= |fs[0]| {
      var f, tail := fs[0], s[|fs[0]|..];
      FirstFrame(f, s, rest, Flatten(fs[1..]));
      k := FramesOfPrefix(fs[1..], tail, rest);
      OneFrameMore(fs, s, k);
      k := k + 1;
    } else {
      if fs != [] {
        PartOfFrame(fs[0], s, rest, Flatten(fs[1..]));
      }
      assert fs[0..] == fs;
    }
  }

  lemma OneFrameMore(fs: seq<seq<Byte>>, s: seq<Byte>, k: nat)
    requires fs != [] && k < |fs| && Complete(s) && s[..Need(s)] == fs[0]
    requires Frames(s[Need(s)..]) == fs[1..][..k]
    ensures Frames(s) == fs[..k + 1] && Leftover(s) == Leftover(s[Need(s)..])
    ensures fs[1..][k..] == fs[k + 1..]
  {
    assert fs[..k + 1] == [fs[0]] + fs[1..][..k];
  }

  lemma FirstFrame(f: seq<Byte>, s: seq<Byte>, rest: seq<Byte>, more: seq<Byte>)
    requires IsFrame(f) && s + rest == f + more && |s| >= |f|
    ensures Complete(s) && Need(s) == |f| && s[..|f|] == f && s[|f|..] + rest == more
  {
    assert s == (s + rest)[..|s|];
    assert s[..|f|] == f;
    assert s[|f|..] + rest == (s + rest)[|f|..];
    CompletePrefix(f, s[|f|..]);
    assert s == f + s[|f|..];
  }

  lemma PartOfFrame(f: seq<Byte>, s: seq<Byte>, rest: seq<Byte>, more: seq<Byte>)
    requires IsFrame(f) && s + rest == f + more && |s| < |f|
    ensures !Complete(s)
  {
    assert s == (s + rest)[..|s|] == f[..|s|];
    assert f == s + f[|s|..];
    if Complete(s) {
      CompletePrefix(s, f[|s|..]);
    }
  }

  // ----- the messages a pipe stands for -----

  /** Requests and responses to the peer's calls go up. */
  ghost predicate GoesUp(m: Message) {
    match m
    case Request(_, _, name, tlv) => Sendable(name, tlv)
    case Reply(_, _, _) => false
    case Foreign(f) => IsFrame(f) && IsResponse(f)
  }

  /** Replies and the peer's requests come down. */
  ghost predicate ComesDown(m: Message) {
    match m
    case Request(_, _, _, _) => false
    case Reply(_, _, a) => |a.payload| < 0x1_0000_0000
    case Foreign(f) => IsFrame(f) && !IsResponse(f)
  }

  ghost function FrameOf(m: Message): seq<Byte> {
    match m
    case Request(id, _, name, tlv) => if Sendable(name, tlv) then RequestBytes(id, name, tlv) else []
    case Reply(id, _, a) => if |a.payload| < 0x1_0000_0000 then ResponseBytes(id, a) else []
    case Foreign(f) => f
  }

  lemma MessageIsFrame(m: Message)
    requires GoesUp(m) || ComesDown(m)
    ensures IsFrame(FrameOf(m))
  {
    match m
    case Request(id, _, name, tlv) => RequestIsFrame(id, name, tlv);
    case Reply(id, _, a) => ResponseIsFrame(id, a);
    case Foreign(f) =>
  }

  ghost function FramesOf(ms: seq<Message>): seq<seq<Byte>> {
    seq(|ms|, i requires 0 <= i < |ms| => FrameOf(ms[i]))
  }

  ghost predicate Sound(ms: seq<Message>, up: bool) {
    forall i :: 0 <= i < |ms| ==> if up then GoesUp(ms[i]) else ComesDown(ms[i])
  }

  /** The bytes kept and under way are those of the messages in the channel. */
  ghost predicate Carries(pipe: Pipe, ms: seq<Message>, up: bool) {
    Sound(ms, up) && pipe.kept + pipe.wire == Flatten(FramesOf(ms))
  }

  lemma FramesOfSnoc(ms: seq<Message>, m: Message)
    ensures Flatten(FramesOf(ms + [m])) == Flatten(FramesOf(ms)) + FrameOf(m)
  {
    FlattenSnoc(FramesOf(ms), FrameOf(m));
    assert FramesOf(ms + [m]) == FramesOf(ms) + [FrameOf(m)];
  }

  lemma {:induction false} WriteMessage(pipe: Pipe, ms: seq<Message>, up: bool, m: Message)
    requires Carries(pipe, ms, up) && if up then GoesUp(m) else ComesDown(m)
    ensures Carries(Written(pipe, FrameOf(m)), ms + [m], up)
  {
    FramesOfSnoc(ms, m);
    Reassociate(pipe.kept, pipe.wire, FrameOf(m));
  }

  /** A chunk completes the frames of the first few messages and leaves the others. */
  lemma ReadChunk(pipe: Pipe, ms: seq<Message>, up: bool, chunk: Chunk) returns (k: nat)
    requires Carries(pipe, ms, up) && chunk.n <= |pipe.wire|
    ensures k <= |ms| && Frames(Stream(pipe, chunk)) == FramesOf(ms[..k])
    ensures Carries(Drained(pipe, chunk), ms[k..], up)
  {
    var s, rest := Stream(pipe, chunk), pipe.wire[chunk.n..];
    assert s + rest == pipe.kept + pipe.wire;
    forall i | 0 <= i < |ms| ensures IsFrame(FramesOf(ms)[i]) {
      MessageIsFrame(ms[i]);
    }
    k := FramesOfPrefix(FramesOf(ms), s, rest);
    FramesOfParts(ms, k);
  }

  lemma FramesOfParts(ms: seq<Message>, k: nat)
    requires k <= |ms|
    ensures FramesOf(ms)[..k] == FramesOf(ms[..k]) && FramesOf(ms)[k..] == FramesOf(ms[k..])
  {
  }

  // ----- every step is matched by steps of the call protocol -----

  ghost predicate CarriesAll(pipes: map<Transport, Pipe>, channel: map<Transport, seq<Message>>, up: bool) {
    pipes.Keys == channel.Keys && forall t :: t in pipes ==> Carries(pipes[t], channel[t], up)
  }

  /** The served request is execution `e` of the protocol, and the peer's method table gave its answer. */
  ghost predicate Matches(x: Service, e: Execution, p: Parties) {
    && e.t == x.t && e.id == x.id && e.name == x.name && e.tlv == x.tlv
    && e.answer == Respond(p.peer(x.t), x.now, x.name, x.tlv) && |e.answer.payload| <= RESULT_TLV_SIZE
  }

  ghost predicate LogMatches(xs: seq<Service>, es: seq<Execution>, p: Parties) {
    |xs| == |es| && forall k :: 0 <= k < |xs| ==> Matches(xs[k], es[k], p)
  }

  /** `a` is the protocol state that `n` implements. */
  ghost predicate Implements(n: Net, a: State, p: Parties) {
    && n.core == a.core && LogMatches(n.log, a.log, p)
    && CarriesAll(n.up, a.up, true) && CarriesAll(n.down, a.down, false)
  }

  /** The frames that get a buffer, taken apart at the first frame. */
  lemma DeliveredFirst(fs: seq<seq<Byte>>, i: nat, buffer: nat -> bool)
    requires fs != []
    ensures var all, rest := Delivered(fs, i, buffer), Delivered(fs[1..], i + 1, buffer);
      if buffer(i) then all != [] && all[0] == fs[0] && all[1..] == rest else all == rest
  {
    var rest := Delivered(fs[1..], i + 1, buffer);
    assert ([fs[0]] + rest)[1..] == rest && [] + rest == rest;
  }

  /** The number of the next message to dispatch. */
  function Following(chunk: Chunk, i: nat, j: nat): nat {
    if chunk.buffer(i) then j + 1 else j
  }

  /** What the first of some frames is answered: nothing if it gets no buffer. */
  ghost function FirstReply(methods: Methods, f: seq<Byte>, i: nat, j: nat, chunk: Chunk): seq<Byte> {
    if chunk.buffer(i) then ReplySent(methods, chunk.moment(j), f, chunk.reply(j)) else []
  }

  ghost function FirstService(t: Transport, f: seq<Byte>, i: nat, j: nat, chunk: Chunk): seq<Service> {
    if chunk.buffer(i) then ServiceOf(t, chunk.moment(j), f) else []
  }

  lemma RepliesUnfold(methods: Methods, t: Transport, fs: seq<seq<Byte>>, i: nat, j: nat, chunk: Chunk)
    requires fs != []
    ensures var msgs, rest := Delivered(fs, i, chunk.buffer), Delivered(fs[1..], i + 1, chunk.buffer);
      && Replies(methods, msgs, j, chunk)
         == FirstReply(methods, fs[0], i, j, chunk) + Replies(methods, rest, Following(chunk, i, j), chunk)
      && Services(t, msgs, j, chunk)
         == FirstService(t, fs[0], i, j, chunk) + Services(t, rest, Following(chunk, i, j), chunk)
  {
    DeliveredFirst(fs, i, chunk.buffer);
    var msgs, rest := Delivered(fs, i, chunk.buffer), Delivered(fs[1..], i + 1, chunk.buffer);
    if chunk.buffer(i) {
      RepliesFirst(methods, t, msgs, j, chunk);
    } else {
      assert [] + Replies(methods, rest, j, chunk) == Replies(methods, rest, j, chunk);
      assert [] + Services(t, rest, j, chunk) == Services(t, rest, j, chunk);
    }
  }

  lemma RepliesFirst(methods: Methods, t: Transport, msgs: seq<seq<Byte>>, j: nat, chunk: Chunk)
    requires msgs != []
    ensures Replies(methods, msgs, j, chunk)
         == ReplySent(methods, chunk.moment(j), msgs[0], chunk.reply(j)) + Replies(methods, msgs[1..], j + 1, chunk)
    ensures Services(t, msgs, j, chunk)
         == ServiceOf(t, chunk.moment(j), msgs[0]) + Services(t, msgs[1..], j + 1, chunk)
  {
  }

  lemma FitsUnfold(methods: Methods, fs: seq<seq<Byte>>, i: nat, j: nat, chunk: Chunk)
    requires fs != [] && Fits(methods, Delivered(fs, i, chunk.buffer), j, chunk)
    ensures chunk.buffer(i) ==> !Overruns(methods, chunk.moment(j), fs[0])
    ensures Fits(methods, Delivered(fs[1..], i + 1, chunk.buffer), Following(chunk, i, j), chunk)
  {
    DeliveredFirst(fs, i, chunk.buffer);
    if chunk.buffer(i) {
      FitsRest(methods, Delivered(fs, i, chunk.buffer), j, chunk);
    }
  }

  lemma FitsRest(methods: Methods, msgs: seq<seq<Byte>>, j: nat, chunk: Chunk)
    requires msgs != [] && Fits(methods, msgs, j, chunk)
    ensures !Overruns(methods, chunk.moment(j), msgs[0]) && Fits(methods, msgs[1..], j + 1, chunk)
  {
    assert !Overruns(methods, chunk.moment(j + 0), msgs[0]);
    forall k | 0 <= k < |msgs| - 1 ensures !Overruns(methods, chunk.moment(j + 1 + k), msgs[1..][k]) {
      assert msgs[1..][k] == msgs[k + 1] && j + (k + 1) == j + 1 + k;
    }
  }

  lemma LogMatchesCat(xs: seq<Service>, es: seq<Execution>, ys: seq<Service>, fs: seq<Execution>, p: Parties)
    requires LogMatches(xs, es, p) && LogMatches(ys, fs, p)
    ensures LogMatches(xs + ys, es + fs, p)
  {
    var all, all' := xs + ys, es + fs;
    forall k | 0 <= k < |all| ensures Matches(all[k], all'[k], p) {
      assert if k < |xs| then Matches(xs[k], es[k], p) else Matches(ys[k - |xs|], fs[k - |xs|], p);
    }
  }

  lemma WrittenTwice(pipe: Pipe, a: seq<Byte>, b: seq<Byte>)
    ensures Written(Written(pipe, a), b) == Written(pipe, a + b)
    ensures Written(pipe, []) == pipe
  {
    assert pipe.wire + a + b == pipe.wire + (a + b);
    assert pipe.wire + [] == pipe.wire;
  }

  /** Writing the responses to some frames is writing that to the first and then the others. */
  lemma WrittenReplies(pipe: Pipe, methods: Methods, fs: seq<seq<Byte>>, i: nat, j: nat, chunk: Chunk)
    requires fs != []
    ensures Written(pipe, Replies(methods, Delivered(fs, i, chunk.buffer), j, chunk))
         == Written(Written(pipe, FirstReply(methods, fs[0], i, j, chunk)),
                    Replies(methods, Delivered(fs[1..], i + 1, chunk.buffer), Following(chunk, i, j), chunk))
  {
    RepliesUnfold(methods, 0, fs, i, j, chunk);
    WrittenTwice(pipe, FirstReply(methods, fs[0], i, j, chunk),
                 Replies(methods, Delivered(fs[1..], i + 1, chunk.buffer), Following(chunk, i, j), chunk));
  }

  /** What a peer answers to message `m`, if that is a request and gets a buffer. */
  ghost function PeerAnswer(methods: Methods, now: nat, m: Message, buffer: bool): Option<Answer> {
    if buffer && m.Request? then AnswerTo(methods, now, m.name, m.tlv) else None
  }

  /** A request taken by the peer, its answer written if it can be sent. */
  lemma {:induction false} RequestTaken(a: State, t: Transport, p: Parties, down: Pipe, now: nat, sent: bool)
    returns (ms: seq<Message>, es: seq<Execution>)
    requires t in a.up && t in a.down && a.up[t] != [] && a.up[t][0].Request? && GoesUp(a.up[t][0])
    requires Carries(down, a.down[t], false) && !Overruns(p.peer(t), now, FrameOf(a.up[t][0]))
    ensures var m := a.up[t][0];
      && Apply(a, PeerTakes(t, PeerAnswer(p.peer(t), now, m, true), sent))
         == State(a.core, a.up[t := a.up[t][1..]], a.down[t := ms], a.log + es)
      && Carries(Written(down, ReplySent(p.peer(t), now, FrameOf(m), sent)), ms, false)
      && LogMatches(ServiceOf(t, now, FrameOf(m)), es, p)
  {
    var m := a.up[t][0];
    WrittenTwice(down, [], []);
    SetTwice(a.down, t, a.down[t], a.down[t]);
    RequestAnswered(p.peer(t), now, m.id, m.name, m.tlv);
    RequestRoundTrip(m.id, m.name, m.tlv);
    var answer := AnswerTo(p.peer(t), now, m.name, m.tlv);
    ms, es := a.down[t], [];
    if answer.Some? {
      es := [Execution(t, m.id, m.call, m.name, m.tlv, answer.value)];
      if sent {
        WriteMessage(down, ms, false, Reply(m.id, m.call, answer.value));
        ms := ms + [Reply(m.id, m.call, answer.value)];
      }
    } else {
      assert a.log + [] == a.log;
    }
  }

  /** A message taken by the peer that is dropped, or that is no request. */
  lemma {:induction false} OtherTaken(a: State, t: Transport, p: Parties, down: Pipe, now: nat, buffer: bool,
                                      sent: bool)
    requires t in a.up && t in a.down && a.up[t] != [] && GoesUp(a.up[t][0]) && !(buffer && a.up[t][0].Request?)
    requires Carries(down, a.down[t], false)
    ensures var m := a.up[t][0];
      && Apply(a, PeerTakes(t, PeerAnswer(p.peer(t), now, m, buffer), sent))
         == State(a.core, a.up[t := a.up[t][1..]], a.down[t := a.down[t]], a.log + [])
      && Carries(Written(down, if buffer then ReplySent(p.peer(t), now, FrameOf(m), sent) else []), a.down[t], false)
      && (buffer ==> ServiceOf(t, now, FrameOf(m)) == [])
  {
    WrittenTwice(down, [], []);
    SetTwice(a.down, t, a.down[t], a.down[t]);
    assert a.log + [] == a.log;
  }

  /** One message taken by the peer. */
  lemma {:induction false} PeerTakesOne(a: State, t: Transport, p: Parties, down: Pipe, i: nat, j: nat, chunk: Chunk)
    returns (ms: seq<Message>, es: seq<Execution>)
    requires t in a.up && t in a.down && a.up[t] != [] && Sound(a.up[t], true) && Carries(down, a.down[t], false)
    requires chunk.buffer(i) ==> !Overruns(p.peer(t), chunk.moment(j), FrameOf(a.up[t][0]))
    ensures var m := a.up[t][0];
      && Apply(a, PeerTakes(t, PeerAnswer(p.peer(t), chunk.moment(j), m, chunk.buffer(i)), chunk.reply(j)))
         == State(a.core, a.up[t := a.up[t][1..]], a.down[t := ms], a.log + es)
      && Carries(Written(down, FirstReply(p.peer(t), FrameOf(m), i, j, chunk)), ms, false)
      && LogMatches(FirstService(t, FrameOf(m), i, j, chunk), es, p)
  {
    assert GoesUp(a.up[t][0]);
    if chunk.buffer(i) && a.up[t][0].Request? {
      ms, es := RequestTaken(a, t, p, down, chunk.moment(j), chunk.reply(j));
    } else {
      OtherTaken(a, t, p, down, chunk.moment(j), chunk.buffer(i), chunk.reply(j));
      ms, es := a.down[t], [];
    }
  }

  lemma FramesOfFirst(ms: seq<Message>, k: nat)
    requires 0 < k <= |ms|
    ensures FramesOf(ms[..k]) != [] && FramesOf(ms[..k])[0] == FrameOf(ms[0])
    ensures FramesOf(ms[..k])[1..] == FramesOf(ms[1..][..k - 1])
    ensures ms[1..][k - 1..] == ms[k..]
  {
  }

  lemma SetTwice(channel: map<Transport, seq<Message>>, t: Transport, a: seq<Message>, b: seq<Message>)
    ensures channel[t := a][t := b] == channel[t := b]
    ensures t in channel && channel[t] == a ==> channel[t := a] == channel
  {
  }

  lemma NoneTaken(a: State, t: Transport, down: Pipe, p: Parties, i: nat, j: nat, chunk: Chunk)
    requires t in a.up && t in a.down
    ensures a == State(a.core, a.up[t := a.up[t][0..]], a.down[t := a.down[t]], a.log + [])
    ensures var msgs := Delivered(FramesOf(a.up[t][..0]), i, chunk.buffer);
      Written(down, Replies(p.peer(t), msgs, j, chunk)) == down && Services(t, msgs, j, chunk) == []
  {
    assert a.up[t][0..] == a.up[t] && FramesOf(a.up[t][..0]) == [] && a.log + [] == a.log;
    SetTwice(a.up, t, a.up[t], a.up[t]);
    SetTwice(a.down, t, a.down[t], a.down[t]);
    WrittenTwice(down, [], []);
  }

  /** The first `k` messages taken by the peer one after the other. */
  lemma {:induction false} PeerTakesAll(a: State, t: Transport, p: Parties, down: Pipe, k: nat, i: nat, j: nat,
                                        chunk: Chunk)
    returns (ms: seq<Message>, es: seq<Execution>, steps: seq<Step>)
    requires t in a.up && t in a.down && k <= |a.up[t]| && Sound(a.up[t], true) && Carries(down, a.down[t], false)
    requires Fits(p.peer(t), Delivered(FramesOf(a.up[t][..k]), i, chunk.buffer), j, chunk)
    ensures CanRun(a, steps)
    ensures Run(a, steps) == State(a.core, a.up[t := a.up[t][k..]], a.down[t := ms], a.log + es)
    ensures var msgs := Delivered(FramesOf(a.up[t][..k]), i, chunk.buffer);
      && Carries(Written(down, Replies(p.peer(t), msgs, j, chunk)), ms, false)
      && LogMatches(Services(t, msgs, j, chunk), es, p)
    decreases k
  {
    var up := a.up[t];
    if k == 0 {
      ms, es, steps := a.down[t], [], [];
      NoneTaken(a, t, down, p, i, j, chunk);
    } else {
      FramesOfFirst(up, k);
      FitsUnfold(p.peer(t), FramesOf(up[..k]), i, j, chunk);
      var ms1, es1 := PeerTakesOne(a, t, p, down, i, j, chunk);
      var a1 := State(a.core, a.up[t := up[1..]], a.down[t := ms1], a.log + es1);
      var reply := FirstReply(p.peer(t), FrameOf(up[0]), i, j, chunk);
      ms, es, steps := PeerTakesAll(a1, t, p, Written(down, reply), k - 1, i + 1, Following(chunk, i, j), chunk);
      var step := PeerTakes(t, PeerAnswer(p.peer(t), chunk.moment(j), up[0], chunk.buffer(i)), chunk.reply(j));
      RunPrepend(a, step, steps);
      SetTwice(a.up, t, up[1..], up[k..]);
      SetTwice(a.down, t, ms1, ms);
      Reassociate(a.log, es1, es);
      WrittenReplies(down, p.peer(t), FramesOf(up[..k]), i, j, chunk);
      RepliesUnfold(p.peer(t), t, FramesOf(up[..k]), i, j, chunk);
      LogMatchesCat(FirstService(t, FrameOf(up[0]), i, j, chunk), es1,
                    Services(t, Delivered(FramesOf(up[1..][..k - 1]), i + 1, chunk.buffer),
                             Following(chunk, i, j), chunk), es, p);
      es, steps := es1 + es, [step] + steps;
    }
  }

  /** The receive step for the first message of a channel. */
  ghost function ReceiveOf(methods: Methods, now: nat, t: Transport, m: Message, buffer: bool, reply: bool): Step {
    Receive(t, !buffer, if reply then ReplyTo(methods, now, FrameOf(m)) else None)
  }

  lemma ReplyIsResponse(methods: Methods, now: nat, msg: seq<Byte>)
    ensures var r := ReplyTo(methods, now, msg); r.Some? ==> GoesUp(Foreign(r.value))
  {
    var r := ReplyTo(methods, now, msg);
    if r.Some? {
      var request := ReadRequest(msg).value;
      ResponseIsFrame(request.0, Respond(methods, now, request.1, request.2));
    }
  }

  /** What receiving message `m` makes of the state, the channel up being `ms` afterwards. */
  ghost predicate Received(a: State, t: Transport, p: Parties, now: nat, m: Message, buffer: bool, reply: bool,
                           ms: seq<Message>)
    requires t in a.up && t in a.down && a.down[t] != []
  {
    Apply(a, ReceiveOf(p.mine, now, t, m, buffer, reply))
    == State(if buffer then HandleMessage(a.core, FrameOf(m)) else a.core, a.up[t := ms],
             a.down[t := a.down[t][1..]], a.log)
  }

  /** A reply fills in its call. */
  lemma {:induction false} ReplyReceived(a: State, t: Transport, p: Parties, up: Pipe, now: nat, buffer: bool,
                                         reply: bool)
    requires t in a.up && t in a.down && a.down[t] != []
    requires Carries(up, a.up[t], true) && ComesDown(a.down[t][0]) && a.down[t][0].Reply?
    ensures var m := a.down[t][0];
      && Received(a, t, p, now, m, buffer, reply, a.up[t])
      && Carries(Written(up, ReplySent(p.mine, now, FrameOf(m), buffer && reply)), a.up[t], true)
  {
    var m := a.down[t][0];
    WrittenTwice(up, [], []);
    SetTwice(a.up, t, a.up[t], a.up[t]);
    ResponseIsFrame(m.id, m.answer);
    ResponseRoundTrip(m.id, m.answer);
  }

  /** A channel after a response was sent, if there is one. */
  ghost function Answering(ms: seq<Message>, response: Option<seq<Byte>>): seq<Message> {
    if response.Some? then ms + [Foreign(response.value)] else ms
  }

  lemma AnswerWritten(pipe: Pipe, ms: seq<Message>, response: Option<seq<Byte>>)
    requires Carries(pipe, ms, true) && (response.Some? ==> GoesUp(Foreign(response.value)))
    ensures Carries(Written(pipe, if response.Some? then response.value else []), Answering(ms, response), true)
  {
    WrittenTwice(pipe, [], []);
    if response.Some? {
      WriteMessage(pipe, ms, true, Foreign(response.value));
    }
  }

  /** A request is answered if that can be sent. */
  lemma {:induction false} ForeignReceived(a: State, t: Transport, p: Parties, up: Pipe, now: nat, buffer: bool,
                                           reply: bool)
    returns (ms: seq<Message>)
    requires t in a.up && t in a.down && a.down[t] != []
    requires Carries(up, a.up[t], true) && ComesDown(a.down[t][0]) && a.down[t][0].Foreign?
    ensures var m := a.down[t][0];
      && Received(a, t, p, now, m, buffer, reply, ms)
      && Carries(Written(up, ReplySent(p.mine, now, FrameOf(m), buffer && reply)), ms, true)
  {
    var f := a.down[t][0].frame;
    ReplyIsResponse(p.mine, now, f);
    var response := if buffer && reply then ReplyTo(p.mine, now, f) else None;
    AnswerWritten(up, a.up[t], response);
    ms := Answering(a.up[t], response);
    ForeignApplied(a, t, p, now, buffer, reply, response);
  }

  lemma ForeignApplied(a: State, t: Transport, p: Parties, now: nat, buffer: bool, reply: bool,
                       response: Option<seq<Byte>>)
    requires t in a.up && t in a.down && a.down[t] != []
    requires ComesDown(a.down[t][0]) && a.down[t][0].Foreign?
    requires response == if buffer && reply then ReplyTo(p.mine, now, a.down[t][0].frame) else None
    ensures Received(a, t, p, now, a.down[t][0], buffer, reply, Answering(a.up[t], response))
  {
    SetTwice(a.up, t, a.up[t], a.up[t]);
    assert HandleMessage(a.core, a.down[t][0].frame) == a.core;
  }

  /** One message received: a reply fills in its call, a request is answered if that can be sent. */
  lemma {:induction false} ReceiveOne(a: State, t: Transport, p: Parties, up: Pipe, i: nat, j: nat, chunk: Chunk)
    returns (ms: seq<Message>)
    requires t in a.up && t in a.down && a.down[t] != []
    requires Sound(a.down[t], false) && Carries(up, a.up[t], true)
    ensures var m := a.down[t][0];
      && Received(a, t, p, chunk.moment(j), m, chunk.buffer(i), chunk.reply(j), ms)
      && Carries(Written(up, FirstReply(p.mine, FrameOf(m), i, j, chunk)), ms, true)
  {
    assert ComesDown(a.down[t][0]);
    if a.down[t][0].Reply? {
      ReplyReceived(a, t, p, up, chunk.moment(j), chunk.buffer(i), chunk.reply(j));
      ms := a.up[t];
    } else {
      ms := ForeignReceived(a, t, p, up, chunk.moment(j), chunk.buffer(i), chunk.reply(j));
    }
  }

  lemma HandledUnfold(core: Core, fs: seq<seq<Byte>>, i: nat, chunk: Chunk)
    requires fs != []
    ensures Handled(core, Delivered(fs, i, chunk.buffer))
         == Handled(if chunk.buffer(i) then HandleMessage(core, fs[0]) else core,
                    Delivered(fs[1..], i + 1, chunk.buffer))
  {
    DeliveredFirst(fs, i, chunk.buffer);
  }

  /** The first `k` messages received one after the other. */
  lemma {:induction false} ReceiveAll(a: State, t: Transport, p: Parties, up: Pipe, k: nat, i: nat, j: nat,
                                      chunk: Chunk)
    returns (ms: seq<Message>, steps: seq<Step>)
    requires t in a.up && t in a.down && k <= |a.down[t]|
    requires Sound(a.down[t], false) && Carries(up, a.up[t], true)
    ensures CanRun(a, steps)
    ensures var msgs := Delivered(FramesOf(a.down[t][..k]), i, chunk.buffer);
      && Run(a, steps) == State(Handled(a.core, msgs), a.up[t := ms], a.down[t := a.down[t][k..]], a.log)
      && Carries(Written(up, Replies(p.mine, msgs, j, chunk)), ms, true)
    decreases k
  {
    var down := a.down[t];
    if k == 0 {
      ms, steps := a.up[t], [];
      assert down[0..] == down && FramesOf(down[..0]) == [];
      SetTwice(a.up, t, ms, ms);
      SetTwice(a.down, t, down, down);
      WrittenTwice(up, [], []);
    } else {
      var buffer := chunk.buffer(i);
      var ms1 := ReceiveOne(a, t, p, up, i, j, chunk);
      var core1 := if buffer then HandleMessage(a.core, FrameOf(down[0])) else a.core;
      var a1 := State(core1, a.up[t := ms1], a.down[t := down[1..]], a.log);
      var reply := FirstReply(p.mine, FrameOf(down[0]), i, j, chunk);
      ms, steps := ReceiveAll(a1, t, p, Written(up, reply), k - 1, i + 1, Following(chunk, i, j), chunk);
      FramesOfFirst(down, k);
      var step := ReceiveOf(p.mine, chunk.moment(j), t, down[0], buffer, chunk.reply(j));
      RunPrepend(a, step, steps);
      SetTwice(a.up, t, ms1, ms);
      SetTwice(a.down, t, down[1..], down[k..]);
      HandledUnfold(a.core, FramesOf(down[..k]), i, chunk);
      WrittenReplies(up, p.mine, FramesOf(down[..k]), i, j, chunk);
      steps := [step] + steps;
    }
  }

  lemma CarriesUpdate(pipes: map<Transport, Pipe>, channel: map<Transport, seq<Message>>, up: bool, t: Transport,
                      pipe: Pipe, ms: seq<Message>)
    requires CarriesAll(pipes, channel, up) && Carries(pipe, ms, up)
    ensures CarriesAll(pipes[t := pipe], channel[t := ms], up)
  {
  }

  /** Every step on bytes is matched by steps of the call protocol. */
  lemma {:induction false} StepMatched(n: Net, a: State, step: NetStep, p: Parties) returns (steps: seq<Step>)
    requires Implements(n, a, p) && Possible(n, step, p)
    ensures CanRun(a, steps) && Implements(Next(n, step, p), Run(a, steps), p)
  {
    match step
    case Calls(action) =>
      steps := [Caller(action)];
      RunPrepend(a, Caller(action), []);
      if action.Start? {
        var args := action.args;
        var m := Request(args.id, action.c, args.name, args.tlv);
        WriteMessage(n.up[args.t], a.up[args.t], true, m);
        CarriesUpdate(n.up, a.up, true, args.t, Written(n.up[args.t], FrameOf(m)), a.up[args.t] + [m]);
      }
    case PeerReceives(t, chunk) =>
      steps := PeerReceivesMatched(n, a, t, chunk, p);
    case PeerCalls(t, id, name, tlv) =>
      var m := Foreign(RequestBytes(id, name, tlv));
      RequestIsFrame(id, name, tlv);
      steps := [PeerSends(t, m.frame)];
      RunPrepend(a, PeerSends(t, m.frame), []);
      WriteMessage(n.down[t], a.down[t], false, m);
      CarriesUpdate(n.down, a.down, false, t, Written(n.down[t], FrameOf(m)), a.down[t] + [m]);
    case Receives(t, chunk) =>
      steps := ReceivesMatched(n, a, t, chunk, p);
  }

  lemma {:induction false} PeerReceivesMatched(n: Net, a: State, t: Transport, chunk: Chunk, p: Parties)
    returns (steps: seq<Step>)
    requires Implements(n, a, p) && Possible(n, PeerReceives(t, chunk), p)
    ensures CanRun(a, steps)
    ensures Implements(Next(n, PeerReceives(t, chunk), p), Run(a, steps), p)
  {
    var k := ReadChunk(n.up[t], a.up[t], true, chunk);
    var msgs := Messages(n.up[t], chunk);
    var ms, es;
    ms, es, steps := PeerTakesAll(a, t, p, n.down[t], k, 0, 0, chunk);
    CarriesUpdate(n.up, a.up, true, t, Drained(n.up[t], chunk), a.up[t][k..]);
    CarriesUpdate(n.down, a.down, false, t, Written(n.down[t], Replies(p.peer(t), msgs, 0, chunk)), ms);
    LogMatchesCat(n.log, a.log, Services(t, msgs, 0, chunk), es, p);
  }

  lemma {:induction false} ReceivesMatched(n: Net, a: State, t: Transport, chunk: Chunk, p: Parties)
    returns (steps: seq<Step>)
    requires Implements(n, a, p) && Possible(n, Receives(t, chunk), p)
    ensures CanRun(a, steps)
    ensures Implements(Next(n, Receives(t, chunk), p), Run(a, steps), p)
  {
    var k := ReadChunk(n.down[t], a.down[t], false, chunk);
    var ms;
    ms, steps := ReceiveAll(a, t, p, n.up[t], k, 0, 0, chunk);
    CarriesUpdate(n.down, a.down, false, t, Drained(n.down[t], chunk), a.down[t][k..]);
    var sent := Replies(p.mine, Messages(n.down[t], chunk), 0, chunk);
    CarriesUpdate(n.up, a.up, true, t, Written(n.up[t], sent), ms);
  }

  // ----- whole runs -----

  ghost predicate CanGo(n: Net, steps: seq<NetStep>, p: Parties)
    decreases steps
  {
    steps == [] || (Possible(n, steps[0], p) && CanGo(Next(n, steps[0], p), steps[1..], p))
  }

  ghost function Go(n: Net, steps: seq<NetStep>, p: Parties): Net
    requires CanGo(n, steps, p)
    decreases steps
  {
    if steps == [] then n else Go(Next(n, steps[0], p), steps[1..], p)
  }

  /** Every run on bytes is matched by a run of the call protocol. */
  lemma {:induction false} RunMatched(n: Net, a: State, steps: seq<NetStep>, p: Parties) returns (run: seq<Step>)
    requires Implements(n, a, p) && CanGo(n, steps, p)
    ensures CanRun(a, run) && Implements(Go(n, steps, p), Run(a, run), p)
    decreases steps
  {
    run := [];
    if steps != [] {
      var first := StepMatched(n, a, steps[0], p);
      var rest := RunMatched(Next(n, steps[0], p), Run(a, first), steps[1..], p);
      RunAppend(a, first, rest);
      run := first + rest;
    }
  }

  /** No call was made, nothing was served, and no byte is kept or under way. */
  ghost predicate Quiet(n: Net) {
    && n.core == Core(1, map[], map[], map[], map[], 0) && n.log == []
    && (forall t :: t in n.up ==> n.up[t] == Pipe([], []))
    && (forall t :: t in n.down ==> n.down[t] == Pipe([], []))
  }

  lemma QuietImplements(n: Net, p: Parties) returns (a: State)
    requires Quiet(n)
    ensures CallProtocol.Init(a) && Implements(n, a, p)
  {
    a := State(n.core, map t | t in n.up :: [], map t | t in n.down :: [], []);
    assert FramesOf([]) == [];
  }

  /** The served request is that of a call. */
  ghost predicate ServiceOfCall(x: Service, call: Started) {
    x.t == call.t && x.id == call.id && x.name == call.name && x.tlv == call.tlv
  }

  /**
    In every run before the numbers wrap around, no request is served twice, whether its call
    succeeded, gave up or is still waiting, and every request served is that of a call.
   */
  lemma ServedAtMostOnce(n: Net, steps: seq<NetStep>, p: Parties, i: nat, j: nat) returns (c: CallId)
    requires Quiet(n) && CanGo(n, steps, p) && Go(n, steps, p).core.drawn <= Sequence.NUMBERS
    requires i < |Go(n, steps, p).log| && j < |Go(n, steps, p).log|
    ensures var n' := Go(n, steps, p);
      && c in n'.core.started && ServiceOfCall(n'.log[i], n'.core.started[c])
      && (n'.log[i].id == n'.log[j].id ==> i == j)
  {
    var a := QuietImplements(n, p);
    var run := RunMatched(n, a, steps, p);
    var log, log' := Go(n, steps, p).log, Run(a, run).log;
    CleanBeforeWrapAround(a, run);
    ExecutedAtMostOnce(a, run, i, j);
    ExecutedAtMostOnce(a, run, j, i);
    assert Matches(log[i], log'[i], p) && Matches(log[j], log'[j], p);
    c := log'[i].call;
  }

  /**
    In every run before the numbers wrap around, a call whose wait succeeded was served exactly
    once, with its own name and parameters, and returns the answer that was given then.
   */
  lemma CallIsServedOnce(n: Net, steps: seq<NetStep>, p: Parties, c: CallId) returns (k: nat)
    requires Quiet(n) && CanGo(n, steps, p)
    requires var core := Go(n, steps, p).core;
      core.drawn <= Sequence.NUMBERS && c in core.results && core.results[c].ok
    ensures var n' := Go(n, steps, p);
      && k < |n'.log| && c in n'.core.started && ServiceOfCall(n'.log[k], n'.core.started[c])
      && forall j :: 0 <= j < |n'.log| && n'.log[j].id == n'.core.started[c].id ==> j == k
    ensures var n' := Go(n, steps, p);
      var x, r := n'.log[k], n'.core.results[c];
      var a := Respond(p.peer(x.t), x.now, x.name, x.tlv);
      && r.status == a.status && r.buf == Truncated(a.payload, n'.core.started[c].bufSize)
      && |a.payload| <= RESULT_TLV_SIZE
  {
    var a := QuietImplements(n, p);
    var run := RunMatched(n, a, steps, p);
    var n', a' := Go(n, steps, p), Run(a, run);
    CleanBeforeWrapAround(a, run);
    RunIsSafe(a, run, c);
    var r := n'.core.results[c];
    k :| AnswerAt(a'.core.started, a'.log, k, c, r.status, r.buf);
    ExecutedAtMostOnce(a, run, k, k);
    assert Matches(n'.log[k], a'.log[k], p);
    forall j | 0 <= j < |n'.log| && n'.log[j].id == n'.core.started[c].id ensures j == k {
      var d := ServedAtMostOnce(n, steps, p, j, k);
    }
  }

  /** The run of a stub that calls method `name` with `params`, as far as the network sees it. */
  ghost predicate StubCall(core: Core, c: CallId, name: seq<Byte>, params: seq<Value>) {
    && c in core.started && c in core.results
    && core.started[c].name == name && core.started[c].tlv == Encoded(params)
    && core.started[c].bufSize == RESP_BUF_SIZE
  }

  /**
    A remote call equals a local call.  In every run, whatever the other callers and the peers
    do, however the streams are cut into chunks and whichever frames are dropped: if the wait of a
    stub succeeds before the numbers wrap around, then the peer's handler was executed exactly
    once for this call, with these parameters, and the stub returns what that execution returned,
    exactly when TLV items can carry it.
   */
  lemma RemoteCallIsLocalCall(n: Net, steps: seq<NetStep>, p: Parties, c: CallId, name: seq<Byte>, params: seq<Value>)
    returns (k: nat)
    requires Quiet(n) && CanGo(n, steps, p)
    requires var core := Go(n, steps, p).core;
      core.drawn <= Sequence.NUMBERS && StubCall(core, c, name, params) && core.results[c].ok
    requires var methods := p.peer(Go(n, steps, p).core.started[c].t);
      && name in methods && ReturnsResults(methods[name])
      && Typed(params, methods[name].params) && AllCarried(params)
    ensures var n' := Go(n, steps, p);
      && k < |n'.log| && ServiceOfCall(n'.log[k], n'.core.started[c])
      && forall j :: 0 <= j < |n'.log| && n'.log[j].id == n'.core.started[c].id ==> j == k
    ensures var n' := Go(n, steps, p);
      var m, r, now := p.peer(n'.core.started[c].t)[name], n'.core.results[c], n'.log[k].now;
      (StubOutcome(m.results, r.status, r.buf) == LocalOutcome(m, now, params)) <==> ItemsCarry(m.handler(now, params))
  {
    k := CallIsServedOnce(n, steps, p, c);
    var n' := Go(n, steps, p);
    RemoteEqualsLocal(p.peer(n'.core.started[c].t), n'.log[k].now, name, params);
    FittingIsCarried(p.peer(n'.core.started[c].t), n'.log[k].now, name, params);
  }

  /** TLV items can carry what a handler returned. */
  predicate ItemsCarry(r: Option<seq<Value>>) {
    r.Some? ==> AllCarried(r.value)
  }

  /** A result that did not overrun the encoder's buffer fits into the stub's. */
  lemma FittingIsCarried(methods: Methods, now: nat, name: seq<Byte>, params: seq<Value>)
    requires name in methods && Typed(params, methods[name].params) && AllCarried(params)
    requires |Respond(methods, now, name, Encoded(params)).payload| <= RESULT_TLV_SIZE
    ensures ResultCarried(methods[name], now, params) <==> ItemsCarry(methods[name].handler(now, params))
  {
    RoundTrip(methods[name].params, params, []);
    assert Encoded(params) + [] == Encoded(params);
  }

  /** A call of a method the peer does not have ends with that status, or by time-out. */
  lemma UnknownMethodIsReported(n: Net, steps: seq<NetStep>, p: Parties, c: CallId)
    requires Quiet(n) && CanGo(n, steps, p)
    requires var core := Go(n, steps, p).core;
      && core.drawn <= Sequence.NUMBERS && c in core.started && c in core.results && core.results[c].ok
      && core.started[c].name !in p.peer(core.started[c].t)
    ensures Go(n, steps, p).core.results[c] == Result(true, STATUS_METHOD_NOT_FOUND, [])
  {
    var k := CallIsServedOnce(n, steps, p, c);
  }

  /** A call whose parameters do not begin with one item for each field ends with that status, or by time-out. */
  lemma BadParamsAreReported(n: Net, steps: seq<NetStep>, p: Parties, c: CallId)
    requires Quiet(n) && CanGo(n, steps, p)
    requires var core := Go(n, steps, p).core;
      && core.drawn <= Sequence.NUMBERS && c in core.started && c in core.results && core.results[c].ok
      && var methods := p.peer(core.started[c].t);
        && core.started[c].name in methods
        && !BeginsWithItems(methods[core.started[c].name].params, core.started[c].tlv)
    ensures Go(n, steps, p).core.results[c] == Result(true, STATUS_INVALID_PARAMS, [])
  {
    var k := CallIsServedOnce(n, steps, p, c);
    var x := Go(n, steps, p).log[k];
    RespondIsAnswer(p.peer(x.t), x.now, x.name, x.tlv);
  }

  /** A call that could not be started, or whose wait failed, and what its stub returns. */
  lemma FailedCallIsReported(n: Net, steps: seq<NetStep>, p: Parties, c: CallId, results: Schema)
    requires Quiet(n) && CanGo(n, steps, p)
    requires c in Go(n, steps, p).core.results && !Go(n, steps, p).core.results[c].ok
    ensures var core := Go(n, steps, p).core;
      var r := core.results[c];
      if c in core.started then StubOutcome(results, r.status, r.buf) == Failure(5)
      else StubOutcome(results, r.status, r.buf) in {Failure(-3), Failure(-4)}
  {
    var a := QuietImplements(n, p);
    var run := RunMatched(n, a, steps, p);
    RunEnded(a, run);
    var core := Go(n, steps, p).core;
    assert EndedAs(c in core.started, core.results[c]);
  }

  /**
    What a stub returns once its wait succeeded: the status of the peer's answer if that is not
    zero; else the values its buffer begins with, or -1 if that does not begin with one item for
    each field of the result.  The answer is that to its own parameters.
   */
  lemma AnsweredStubReturns(n: Net, steps: seq<NetStep>, p: Parties, c: CallId, results: Schema)
    returns (now: nat, answer: Answer)
    requires Quiet(n) && CanGo(n, steps, p)
    requires var core := Go(n, steps, p).core;
      core.drawn <= Sequence.NUMBERS && c in core.results && core.results[c].ok
    ensures var core := Go(n, steps, p).core;
      && c in core.started
      && var call, r := core.started[c], core.results[c];
        var outcome := StubOutcome(results, r.status, r.buf);
        && IsAnswer(p.peer(call.t), now, call.name, call.tlv, answer)
        && r.buf == Truncated(answer.payload, call.bufSize)
        && if answer.status != 0 then outcome == Failure(answer.status)
           else if BeginsWithItems(results, r.buf)
           then outcome.Success? && Parsed(results, r.buf) == Some(outcome.values)
           else outcome == Failure(-1)
  {
    var k := CallIsServedOnce(n, steps, p, c);
    var x := Go(n, steps, p).log[k];
    now, answer := x.now, Respond(p.peer(x.t), x.now, x.name, x.tlv);
    RespondIsAnswer(p.peer(x.t), now, x.name, x.tlv);
    ParsedIff(results, Go(n, steps, p).core.results[c].buf);
  }

  // ----- calls do complete -----

  /** Everything under way arrives at once, every buffer and response gets its memory, and all is served `now`. */
  ghost function Everything(pipe: Pipe, now: nat): Chunk {
    Chunk(|pipe.wire|, _ => true, _ => true, _ => now)
  }

  lemma OneFrameArrives(f: seq<Byte>, now: nat)
    requires IsFrame(f)
    ensures var pipe := Pipe([], f);
      Messages(pipe, Everything(pipe, now)) == [f] && Drained(pipe, Everything(pipe, now)) == Pipe([], [])
  {
    var pipe, chunk := Pipe([], f), Everything(Pipe([], f), now);
    assert Stream(pipe, chunk) == f && pipe.wire[chunk.n..] == [];
    OnlyFrame(f);
    OnlyDelivered(f, chunk.buffer);
  }

  lemma OnlyFrame(f: seq<Byte>)
    requires IsFrame(f)
    ensures Frames(f) == [f] && Leftover(f) == []
  {
    assert f[..Need(f)] == f && f[Need(f)..] == [];
    var rest: seq<Byte> := [];
    assert !Complete(rest);
  }

  lemma OnlyDelivered(f: seq<Byte>, ok: nat -> bool)
    requires ok(0)
    ensures Delivered([f], 0, ok) == [f]
  {
    var fs: seq<seq<Byte>> := [f];
    assert fs[1..] == [] && fs + [] == fs;
  }

  lemma OnlyHandled(core: Core, msg: seq<Byte>)
    ensures Handled(core, [msg]) == HandleMessage(core, msg)
  {
    var msgs: seq<seq<Byte>> := [msg];
    assert msgs[1..] == [];
  }

  /** The peer takes a request off an idle transport and puts its answer on the way back. */
  lemma RequestIsServed(n: Net, t: Transport, p: Parties, id: U32, name: seq<Byte>, tlv: seq<Byte>, now: nat)
    requires t in n.up && t in n.down && Sendable(name, tlv) && |name| < METHOD_LEN
    requires n.up[t] == Pipe([], RequestBytes(id, name, tlv)) && n.down[t] == Pipe([], [])
    requires |Respond(p.peer(t), now, name, tlv).payload| <= RESULT_TLV_SIZE
    ensures var a, step := Respond(p.peer(t), now, name, tlv), PeerReceives(t, Everything(n.up[t], now));
      && Possible(n, step, p)
      && var n' := Next(n, step, p);
        && n'.core == n.core && n'.down[t] == Pipe([], ResponseBytes(id, a)) && t in n'.up && t in n'.down
        && n'.log == n.log + [Service(t, id, name, tlv, now)]
  {
    var request, a := RequestBytes(id, name, tlv), Respond(p.peer(t), now, name, tlv);
    RequestIsFrame(id, name, tlv);
    OneFrameArrives(request, now);
    RequestAnswered(p.peer(t), now, id, name, tlv);
    RequestRoundTrip(id, name, tlv);
    OnlyDispatched(p.peer(t), t, request, now, Everything(n.up[t], now));
    RequestNext(n, t, p, request, now);
    assert [] + ResponseBytes(id, a) == ResponseBytes(id, a);
  }

  /** A single message under way to the peer, received. */
  lemma RequestNext(n: Net, t: Transport, p: Parties, msg: seq<Byte>, now: nat)
    requires t in n.up && t in n.down && n.up[t] == Pipe([], msg)
    requires Messages(n.up[t], Everything(n.up[t], now)) == [msg]
    requires Fits(p.peer(t), [msg], 0, Everything(n.up[t], now))
    ensures var chunk := Everything(n.up[t], now);
      && Possible(n, PeerReceives(t, chunk), p)
      && var n' := Next(n, PeerReceives(t, chunk), p);
        && n'.core == n.core && t in n'.up && t in n'.down
        && n'.down[t] == Written(n.down[t], Replies(p.peer(t), [msg], 0, chunk))
        && n'.log == n.log + Services(t, [msg], 0, chunk)
  {
  }

  /** A single message, dispatched. */
  lemma OnlyDispatched(methods: Methods, t: Transport, msg: seq<Byte>, now: nat, chunk: Chunk)
    requires chunk.moment(0) == now
    ensures Fits(methods, [msg], 0, chunk) <==> !Overruns(methods, now, msg)
    ensures Replies(methods, [msg], 0, chunk) == ReplySent(methods, now, msg, chunk.reply(0))
    ensures Services(t, [msg], 0, chunk) == ServiceOf(t, now, msg)
  {
    var msgs: seq<seq<Byte>> := [msg];
    assert msgs[1..] == [];
    assert Fits(methods, msgs, 0, chunk) ==> !Overruns(methods, chunk.moment(0 + 0), msgs[0]);
    assert ReplySent(methods, now, msg, chunk.reply(0)) + [] == ReplySent(methods, now, msg, chunk.reply(0));
    assert ServiceOf(t, now, msg) + [] == ServiceOf(t, now, msg);
  }

  /** The caller's side takes the answer off the transport and fills in the pending call. */
  lemma ReplyIsHandled(n: Net, t: Transport, p: Parties, id: U32, a: Answer)
    requires t in n.up && t in n.down && |a.payload| <= RESULT_TLV_SIZE
    requires n.down[t] == Pipe([], ResponseBytes(id, a))
    ensures var step := Receives(t, Everything(n.down[t], 0));
      && Possible(n, step, p) && Next(n, step, p).core == HandleResponse(n.core, id, a)
      && Next(n, step, p).log == n.log
  {
    var reply := ResponseBytes(id, a);
    ResponseIsFrame(id, a);
    OneFrameArrives(reply, 0);
    ResponseRoundTrip(id, a);
    OnlyHandled(n.core, reply);
    OnlyDispatched(p.mine, t, reply, 0, Everything(n.down[t], 0));
  }

  lemma GoPrepend(n: Net, step: NetStep, steps: seq<NetStep>, p: Parties)
    requires Possible(n, step, p) && CanGo(Next(n, step, p), steps, p)
    ensures CanGo(n, [step] + steps, p) && Go(n, [step] + steps, p) == Go(Next(n, step, p), steps, p)
  {
    assert ([step] + steps)[1..] == steps;
  }

  /** A call whose record is filled in before it waits returns what the record holds. */
  lemma AnsweredCallReturns(n: Net, p: Parties, c: CallId) returns (steps: seq<NetStep>)
    requires c in n.core.calls && c in n.core.started
    requires n.core.calls[c].phase == Sent && n.core.calls[c].signaled
    ensures CanGo(n, steps, p) && c in Go(n, steps, p).core.results
    ensures Go(n, steps, p).core.results[c] == Result(true, n.core.calls[c].status, n.core.calls[c].buf)
    ensures Go(n, steps, p).core.started == n.core.started && Go(n, steps, p).log == n.log
  {
    var n1 := Next(n, Calls(Wait(c)), p);
    GoPrepend(n1, Calls(Finish(c)), [], p);
    steps := [Calls(Finish(c))] + [];
    GoPrepend(n, Calls(Wait(c)), steps, p);
    steps := [Calls(Wait(c))] + steps;
  }

  /**
    On an idle transport there is, for every moment, a run on which the handler is executed at
    that moment and the wait of a stub succeeds, whatever calls are pending elsewhere; the stub
    then returns the outcome of the local call exactly when TLV items can carry it.
   */
  lemma RemoteCallCompletes(n: Net, p: Parties, c: CallId, t: Transport, id: U32, name: seq<Byte>, params: seq<Value>,
                            skipped: nat, now: nat)
    returns (steps: seq<NetStep>)
    requires t in n.up && t in n.down && n.up[t] == Pipe([], []) && n.down[t] == Pipe([], [])
    requires Sendable(name, Encoded(params)) && |name| < METHOD_LEN && name in p.peer(t)
    requires CanAct(n.core, Start(c, Started(t, id, name, Encoded(params), RESP_BUF_SIZE), skipped))
    requires Typed(params, p.peer(t)[name].params) && AllCarried(params) && ReturnsResults(p.peer(t)[name])
    requires var r := p.peer(t)[name].handler(now, params);
      r.Some? ==> |Encoded(r.value)| <= RESULT_TLV_SIZE
    ensures CanGo(n, steps, p) && StubCall(Go(n, steps, p).core, c, name, params)
    ensures Go(n, steps, p).core.results[c].ok
    ensures Go(n, steps, p).log == n.log + [Service(t, id, name, Encoded(params), now)]
    ensures var m, r := p.peer(t)[name], Go(n, steps, p).core.results[c];
      (StubOutcome(m.results, r.status, r.buf) == LocalOutcome(m, now, params)) <==> ItemsCarry(m.handler(now, params))
  {
    var tlv, args := Encoded(params), Started(t, id, name, Encoded(params), RESP_BUF_SIZE);
    var a := Respond(p.peer(t), now, name, tlv);
    AnswerFits(p.peer(t), now, name, params);
    var n1 := Next(n, Calls(Start(c, args, skipped)), p);
    assert [] + RequestBytes(id, name, tlv) == RequestBytes(id, name, tlv);
    RequestIsServed(n1, t, p, id, name, tlv, now);
    var n2 := Next(n1, PeerReceives(t, Everything(n1.up[t], now)), p);
    ReplyIsHandled(n2, t, p, id, a);
    var n3 := Next(n2, Receives(t, Everything(n2.down[t], 0)), p);
    steps := AnsweredCallReturns(n3, p, c);
    GoPrepend(n2, Receives(t, Everything(n2.down[t], 0)), steps, p);
    steps := [Receives(t, Everything(n2.down[t], 0))] + steps;
    GoPrepend(n1, PeerReceives(t, Everything(n1.up[t], now)), steps, p);
    steps := [PeerReceives(t, Everything(n1.up[t], now))] + steps;
    GoPrepend(n, Calls(Start(c, args, skipped)), steps, p);
    steps := [Calls(Start(c, args, skipped))] + steps;
    RemoteEqualsLocal(p.peer(t), now, name, params);
    FittingIsCarried(p.peer(t), now, name, params);
  }

  /** The answer to parameters that can be carried is no longer than the encoded result. */
  lemma AnswerFits(methods: Methods, now: nat, name: seq<Byte>, params: seq<Value>)
    requires name in methods && Typed(params, methods[name].params) && AllCarried(params)
    requires var r := methods[name].handler(now, params);
      r.Some? ==> |Encoded(r.value)| <= RESULT_TLV_SIZE
    ensures |Respond(methods, now, name, Encoded(params)).payload| <= RESULT_TLV_SIZE
  {
    RoundTrip(methods[name].params, params, []);
    assert Encoded(params) + [] == Encoded(params);
  }
}
