/**
  Requests and responses as bytes, and what a receiver does with them: the senders, handlers
  and dispatcher of ccrpc/source/rpc.c, and the generated stubs of ccrpc/source/rpc_gen.c.
 */
module Dispatch {
  import opened Bytes
  import opened Codec
  import opened Framing
  import opened TlvBuffer
  import opened CallProtocol

  const METHOD_LEN: nat := 128
  const RESULT_TLV_SIZE: nat := 4096
  const RESP_BUF_SIZE: nat := 4096

  /**
    A registered method with generated parser and encoder; the handler fails with None.  What it
    returns may change from one execution to the next: an execution takes place at a moment, and
    the moments of the executions are arbitrary.
   */
  datatype Method = Method(params: Schema, results: Schema, handler: (nat, seq<Value>) -> Option<seq<Value>>)

  type Methods = map<seq<Byte>, Method>

  /** The handler returns result structs of its method. */
  ghost predicate ReturnsResults(m: Method) {
    forall now, vs :: Typed(vs, m.params) && m.handler(now, vs).Some? ==> Typed(m.handler(now, vs).value, m.results)
  }

  // ----- messages -----

  ghost predicate Sendable(name: seq<Byte>, tlv: seq<Byte>) {
    1 <= |name| < 0x1_0000 && NulFree(name) && |name| + |tlv| < 0x1_0000_0000
  }

  function RequestBytes(id: U32, name: seq<Byte>, tlv: seq<Byte>): seq<Byte>
    requires Sendable(name, tlv)
  {
    HeaderBytes(Header(STATUS_OK, id, |name| + |tlv|, |name|)) + (name + tlv)
  }

  function ResponseBytes(id: U32, a: Answer): seq<Byte>
    requires |a.payload| < 0x1_0000_0000
  {
    HeaderBytes(Header(a.status, id, |a.payload|, 0)) + a.payload
  }

  /** `f` is one whole frame and nothing else. */
  predicate IsFrame(f: seq<Byte>) {
    |f| >= HEADER_SIZE && |f| == Need(f)
  }

  // ----- handling -----

  /** What the method table makes of a call: the status, and the result on success. */
  function Respond(methods: Methods, now: nat, name: seq<Byte>, tlv: seq<Byte>): (a: Answer)
    ensures a.status != STATUS_OK ==> a.payload == []
  {
    if name !in methods then Answer(STATUS_METHOD_NOT_FOUND, [])
    else
      var m := methods[name];
      var params := Parsed(m.params, tlv);
      if params.None? then Answer(STATUS_INVALID_PARAMS, [])
      else
        var result := m.handler(now, params.value);
        if result.None? then Answer(STATUS_INTERNAL_ERROR, []) else Answer(STATUS_OK, Encoded(result.value))
  }

  /**
    The answer to a call, said without `Respond`: the status tells an unknown method, parameters
    that do not parse, a handler that fails and a result apart, and only a result has a payload.
   */
  ghost predicate IsAnswer(methods: Methods, now: nat, name: seq<Byte>, tlv: seq<Byte>, a: Answer) {
    if name !in methods then a == Answer(1, [])
    else if !BeginsWithItems(methods[name].params, tlv) then a == Answer(2, [])
    else
      var m := methods[name];
      var params := Parsed(m.params, tlv);
      && params.Some?
      && var result := m.handler(now, params.value);
        if result.None? then a == Answer(3, []) else a == Answer(0, Encoded(result.value))
  }

  lemma RespondIsAnswer(methods: Methods, now: nat, name: seq<Byte>, tlv: seq<Byte>)
    ensures IsAnswer(methods, now, name, tlv, Respond(methods, now, name, tlv))
  {
    if name in methods {
      ParsedIff(methods[name].params, tlv);
    }
  }

  /** The statuses exclude each other, so an answer has exactly one of four. */
  lemma StatusOfAnswer(methods: Methods, now: nat, name: seq<Byte>, tlv: seq<Byte>, a: Answer)
    requires IsAnswer(methods, now, name, tlv, a)
    ensures var parsed := name in methods && Parsed(methods[name].params, tlv).Some?;
      var done := parsed && methods[name].handler(now, Parsed(methods[name].params, tlv).value).Some?;
      && (a.status == 1 <==> name !in methods)
      && (a.status == 2 <==> name in methods && !parsed)
      && (a.status == 3 <==> parsed && !done)
      && (a.status == 0 <==> done)
  {
    if name in methods {
      ParsedIff(methods[name].params, tlv);
    }
  }

  /** A request as a receiver takes it apart; None if it is ignored. */
  function ReadRequest(msg: seq<Byte>): Option<(U32, seq<Byte>, seq<Byte>)> {
    if |msg| < HEADER_SIZE then None
    else
      var h := HeaderOf(msg);
      if h.msgLen < h.methodLen then None
      else if h.methodLen == 0 || h.methodLen >= METHOD_LEN then None
      else if |msg| < HEADER_SIZE + h.msgLen then None
      else
        var payload := msg[HEADER_SIZE..];
        Some((h.id, UpToNul(payload[..h.methodLen]), payload[h.methodLen..h.msgLen]))
  }

  /** A response as a receiver takes it apart; None if it is ignored. */
  function ReadResponse(msg: seq<Byte>): Option<(U32, Answer)> {
    if |msg| < HEADER_SIZE then None
    else
      var h := HeaderOf(msg);
      if |msg| < HEADER_SIZE + h.msgLen then None
      else Some((h.id, Answer(h.status, msg[HEADER_SIZE..HEADER_SIZE + h.msgLen])))
  }

  predicate IsResponse(msg: seq<Byte>) {
    |msg| >= HEADER_SIZE && HeaderOf(msg).methodLen == 0
  }

  /** The message is a request that is taken apart; responses and malformed requests are not. */
  predicate IsServed(msg: seq<Byte>) {
    |msg| >= HEADER_SIZE && !IsResponse(msg) && ReadRequest(msg).Some?
  }

  /**
    The handler succeeds, and its encoded result is longer than the result buffer: the encoder
    does not check for room.
   */
  predicate Overruns(methods: Methods, now: nat, msg: seq<Byte>) {
    && IsServed(msg)
    && var r := ReadRequest(msg).value;
      |Respond(methods, now, r.1, r.2).payload| > RESULT_TLV_SIZE
  }

  /** What the dispatcher sends back for a message: the answer to a request it does not ignore. */
  ghost function ReplyTo(methods: Methods, now: nat, msg: seq<Byte>): Option<seq<Byte>> {
    if !IsServed(msg) || Overruns(methods, now, msg) then None
    else
      var r := ReadRequest(msg).value;
      Some(ResponseBytes(r.0, Respond(methods, now, r.1, r.2)))
  }

  /** A request gets the answer to its call back, under its number, or overruns the result buffer. */
  ghost predicate ServedRightly(methods: Methods, now: nat, msg: seq<Byte>, reply: Option<seq<Byte>>, overrun: bool) {
    var request := ReadRequest(msg);
    if request.None? then reply == None && !overrun
    else exists a ::
      && IsAnswer(methods, now, request.value.1, request.value.2, a)
      && if |a.payload| > 4096 then overrun && reply == None
         else !overrun && reply.Some? && ReadResponse(reply.value) == Some((request.value.0, a))
  }

  lemma ServedByReply(methods: Methods, now: nat, msg: seq<Byte>)
    ensures ServedRightly(methods, now, msg, ReplyTo(methods, now, msg), Overruns(methods, now, msg))
  {
    RequestTakenApart(msg);
    if ReadRequest(msg).Some? {
      var r := ReadRequest(msg).value;
      var a := Respond(methods, now, r.1, r.2);
      RespondIsAnswer(methods, now, r.1, r.2);
      if |a.payload| <= RESULT_TLV_SIZE {
        ResponseRoundTrip(r.0, a);
      }
    }
  }

  /**
    Which messages are requests and what is in them: a name of 1 to 127 bytes, read up to a NUL,
    behind the header, and parameters behind the name.
   */
  lemma RequestTakenApart(msg: seq<Byte>)
    ensures ReadRequest(msg).Some? <==>
      |msg| >= 12 && 0 < Big16(msg, 10) < 128 && Big16(msg, 10) <= Big32(msg, 6) && 12 + Big32(msg, 6) <= |msg|
    ensures ReadRequest(msg).Some? ==>
      var (id, name, tlv) := ReadRequest(msg).value;
      var behind := 12 + Big16(msg, 10);
      && id == Big32(msg, 2) && NulFree(name) && name <= msg[12..behind]
      && (12 + |name| < behind ==> msg[12 + |name|] == 0)
      && tlv == msg[behind..12 + Big32(msg, 6)]
    ensures ReadRequest(msg).Some? ==> IsServed(msg)
  {
    if |msg| >= HEADER_SIZE {
      HeaderFields(msg);
      var h := HeaderOf(msg);
      if ReadRequest(msg).Some? {
        var payload := msg[HEADER_SIZE..];
        assert payload[..h.methodLen] == msg[12..12 + h.methodLen];
        assert payload[h.methodLen..h.msgLen] == msg[12 + h.methodLen..12 + h.msgLen];
      }
    }
  }

  /** Which messages hold an answer: status and number from the header, the payload behind it. */
  lemma ResponseTakenApart(msg: seq<Byte>)
    ensures ReadResponse(msg).Some? <==> |msg| >= 12 && 12 + Big32(msg, 6) <= |msg|
    ensures ReadResponse(msg).Some? ==>
      ReadResponse(msg).value == (Big32(msg, 2), Answer(Big16(msg, 0), msg[12..12 + Big32(msg, 6)]))
    ensures IsResponse(msg) <==> |msg| >= 12 && Big16(msg, 10) == 0
  {
    if |msg| >= HEADER_SIZE {
      HeaderFields(msg);
    }
  }

  /**
    A request the generated code serves: parse, call, and encode into a fixed buffer.  `overrun`
    says that the encoder runs over the end of the buffer; what happens then is not modelled.
   */
  method Serve(methods: Methods, now: nat, msg: seq<Byte>) returns (reply: Option<seq<Byte>>, overrun: bool)
    ensures overrun <==> Overruns(methods, now, msg)
    ensures reply == ReplyTo(methods, now, msg)
    ensures ServedRightly(methods, now, msg, reply, overrun)
  {
    ServedByReply(methods, now, msg);
    reply, overrun := None, false;
    if |msg| < HEADER_SIZE || IsResponse(msg) {
      return;
    }
    var request := ReadRequest(msg);
    if request.None? {
      return;
    }
    var (id, name, tlv) := request.value;
    if name !in methods {
      return Some(ResponseBytes(id, Answer(STATUS_METHOD_NOT_FOUND, []))), false;
    }
    var m := methods[name];
    var status := STATUS_OK;
    var params := ParseFields(m.params, tlv);
    if params.None? {
      status := STATUS_INVALID_PARAMS;
    }
    var result: Option<seq<Value>> := None;
    if status == STATUS_OK {
      result := m.handler(now, params.value);
      if result.None? {
        status := STATUS_INTERNAL_ERROR;
      }
    }
    var resp := new Byte[RESULT_TLV_SIZE](_ => 0);
    var len := 0;
    if status == STATUS_OK {
      if |Encoded(result.value)| > RESULT_TLV_SIZE {
        return None, true;
      }
      len := EmitFields(resp, result.value);
    }
    reply := Some(ResponseBytes(id, Answer(status, resp[..len])));
  }

  // ----- the two ends agree -----

  lemma RequestIsFrame(id: U32, name: seq<Byte>, tlv: seq<Byte>)
    requires Sendable(name, tlv)
    ensures IsFrame(RequestBytes(id, name, tlv)) && !IsResponse(RequestBytes(id, name, tlv))
    ensures HeaderOf(RequestBytes(id, name, tlv)) == Header(STATUS_OK, id, |name| + |tlv|, |name|)
  {
    HeaderRoundTrip(Header(STATUS_OK, id, |name| + |tlv|, |name|), name + tlv);
  }

  lemma ResponseIsFrame(id: U32, a: Answer)
    requires |a.payload| < 0x1_0000_0000
    ensures IsFrame(ResponseBytes(id, a)) && IsResponse(ResponseBytes(id, a))
    ensures HeaderOf(ResponseBytes(id, a)) == Header(a.status, id, |a.payload|, 0)
  {
    HeaderRoundTrip(Header(a.status, id, |a.payload|, 0), a.payload);
  }

  /** A receiver finds the number, name and parameters that were sent, if the name is not too long. */
  lemma RequestRoundTrip(id: U32, name: seq<Byte>, tlv: seq<Byte>)
    requires Sendable(name, tlv)
    ensures ReadRequest(RequestBytes(id, name, tlv)) == if |name| < METHOD_LEN then Some((id, name, tlv)) else None
  {
    RequestIsFrame(id, name, tlv);
    var payload := RequestBytes(id, name, tlv)[HEADER_SIZE..];
    assert payload == name + tlv;
    assert payload[..|name|] == name && payload[|name|..|name| + |tlv|] == tlv;
  }

  lemma ResponseRoundTrip(id: U32, a: Answer)
    requires |a.payload| < 0x1_0000_0000
    ensures ReadResponse(ResponseBytes(id, a)) == Some((id, a))
  {
    ResponseIsFrame(id, a);
    var msg := ResponseBytes(id, a);
    assert msg[HEADER_SIZE..HEADER_SIZE + |a.payload|] == a.payload;
  }

  /** What a method table makes of a request: ignored if the name is too long, else answered. */
  function AnswerTo(methods: Methods, now: nat, name: seq<Byte>, tlv: seq<Byte>): Option<Answer> {
    if |name| < METHOD_LEN then Some(Respond(methods, now, name, tlv)) else None
  }

  /** A request that does not overrun the receiver's buffer gets its answer back. */
  lemma RequestAnswered(methods: Methods, now: nat, id: U32, name: seq<Byte>, tlv: seq<Byte>)
    requires Sendable(name, tlv)
    ensures var msg, a := RequestBytes(id, name, tlv), AnswerTo(methods, now, name, tlv);
      && (IsServed(msg) <==> a.Some?)
      && (Overruns(methods, now, msg) <==> a.Some? && |a.value.payload| > RESULT_TLV_SIZE)
      && (!Overruns(methods, now, msg) ==>
        ReplyTo(methods, now, msg) == if a.Some? then Some(ResponseBytes(id, a.value)) else None)
  {
    RequestIsFrame(id, name, tlv);
    RequestRoundTrip(id, name, tlv);
  }

  // ----- stubs -----

  /** What a stub makes of a finished call: the result struct, or the status it returns. */
  datatype Outcome = Success(values: seq<Value>) | Failure(status: int)

  function StubOutcome(results: Schema, status: int, resp: seq<Byte>): Outcome {
    if status != STATUS_OK then Failure(status)
    else
      var r := Parsed(results, resp);
      if r.Some? then Success(r.value) else Failure(-1)
  }

  /** What a local call of the same handler gives. */
  function LocalOutcome(m: Method, now: nat, params: seq<Value>): Outcome {
    var r := m.handler(now, params);
    if r.Some? then Success(r.value) else Failure(STATUS_INTERNAL_ERROR)
  }

  /** TLV items in the stub's response buffer can carry what the handler makes of the parameters. */
  predicate ResultCarried(m: Method, now: nat, params: seq<Value>) {
    var r := m.handler(now, params);
    r.Some? ==> AllCarried(r.value) && |Encoded(r.value)| <= RESP_BUF_SIZE
  }

  /** What fits into the response buffer is carried as far as it is carried without one. */
  lemma TruncatedRoundTrip(results: Schema, vs: seq<Value>)
    requires Typed(vs, results)
    ensures Parsed(results, Truncated(Encoded(vs), RESP_BUF_SIZE)) == Some(vs)
       <==> AllCarried(vs) && |Encoded(vs)| <= RESP_BUF_SIZE
  {
    if |Encoded(vs)| <= RESP_BUF_SIZE {
      RoundTripIff(results, vs, []);
      assert Encoded(vs) + [] == Encoded(vs);
    } else {
      ParsedFits(results, Truncated(Encoded(vs), RESP_BUF_SIZE));
    }
  }

  /**
    The answer a peer gives to a stub's request, cut to the stub's response buffer and parsed, is
    the outcome of calling the handler locally with the same parameters at the same moment,
    exactly when TLV items in that buffer can carry what the handler returned.
   */
  lemma RemoteEqualsLocal(methods: Methods, now: nat, name: seq<Byte>, params: seq<Value>)
    requires name in methods && ReturnsResults(methods[name])
    requires Typed(params, methods[name].params) && AllCarried(params)
    ensures var m, a := methods[name], Respond(methods, now, name, Encoded(params));
      (StubOutcome(m.results, a.status, Truncated(a.payload, RESP_BUF_SIZE)) == LocalOutcome(m, now, params))
      <==> ResultCarried(m, now, params)
  {
    var m := methods[name];
    RoundTrip(m.params, params, []);
    assert Encoded(params) + [] == Encoded(params);
    var r := m.handler(now, params);
    if r.Some? {
      TruncatedRoundTrip(m.results, r.value);
    }
  }
}
