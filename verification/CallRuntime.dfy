/**
  The memory behind the call protocol, as ccrpc/source/rpc.c keeps it: the number generator over
  the hash map of pending calls, and a record for each of them.  Every method is one critical
  section, and does what the protocol says of that step.
 */
module CallRuntime {
  import opened Bytes
  import opened HashMaps
  import opened Sequence
  import opened CallProtocol

  /** The fields of `struct pending_call` that do not change: its number, and the size of its buffer. */
  datatype Slot = Slot(number: U32, room: nat)

  /** The hash map holds the pending calls by number; sealed as `Basics` explains. */
  ghost predicate Mirrors(content: map<Key, CallId>, numbers: map<U32, CallId>) {
    forall seal: nat :: MirrorsUnder(content, numbers, seal)
  }

  ghost predicate MirrorsUnder(content: map<Key, CallId>, numbers: map<U32, CallId>, seal: nat) {
    && (forall key :: key in content ==> key.IntKey? && IsNumber(key.w) && key.w in numbers)
    && (forall id :: id in numbers ==> IntKey(id) in content && content[IntKey(id)] == numbers[id])
  }

  /**
    A pending number leads to a record that holds it, and a record holds what its call was
    started with; sealed like `Mirrors`.
   */
  ghost predicate Recorded(s: Core, slots: map<CallId, Slot>) {
    forall seal: nat :: RecordedUnder(s, slots, seal)
  }

  ghost predicate RecordedUnder(s: Core, slots: map<CallId, Slot>, seal: nat) {
    && (forall id :: id in s.pending ==>
      s.pending[id] in s.calls && s.pending[id] in slots && slots[s.pending[id]].number == id)
    && (forall c :: c in s.calls ==>
      c in slots && c in s.started && slots[c] == Slot(s.started[c].id, s.started[c].bufSize))
  }

  lemma MirrorsPut(content: map<Key, CallId>, numbers: map<U32, CallId>, id: U32, c: CallId)
    requires Mirrors(content, numbers) && IsNumber(id)
    ensures Mirrors(content[IntKey(id) := c], numbers[id := c])
  {
    assert MirrorsUnder(content, numbers, 0);
  }

  lemma MirrorsRemoved(content: map<Key, CallId>, numbers: map<U32, CallId>, id: U32)
    requires Mirrors(content, numbers)
    ensures Mirrors(content - {IntKey(id)}, numbers - {id})
  {
    assert MirrorsUnder(content, numbers, 0);
  }

  lemma Mirrored(content: map<Key, CallId>, numbers: map<U32, CallId>, id: U32)
    requires Mirrors(content, numbers)
    ensures id in numbers <==> IntKey(id) in content
    ensures id in numbers ==> numbers[id] == content[IntKey(id)]
  {
    assert MirrorsUnder(content, numbers, 0);
  }

  /** The record of a call, found directly or under its number. */
  lemma RecordOf(s: Core, slots: map<CallId, Slot>, c: CallId, id: U32)
    requires Recorded(s, slots)
    ensures c in s.calls ==> c in slots && c in s.started && slots[c] == Slot(s.started[c].id, s.started[c].bufSize)
    ensures id in s.pending ==> s.pending[id] in s.calls && s.pending[id] in s.started
    ensures id in s.pending ==> s.pending[id] in slots && slots[s.pending[id]].room == s.started[s.pending[id]].bufSize
  {
    assert RecordedUnder(s, slots, 0);
  }

  lemma UpdateRecorded(s: Core, slots: map<CallId, Slot>, c: CallId, call: Call)
    requires Recorded(s, slots) && c in s.calls
    ensures Recorded(s.(calls := s.calls[c := call]), slots)
  {
    assert RecordedUnder(s, slots, 0);
  }

  /** Counters and results do not matter. */
  lemma HistoryRecorded(s: Core, s': Core, slots: map<CallId, Slot>)
    requires Recorded(s, slots) && s'.pending == s.pending && s'.calls == s.calls && s'.started == s.started
    ensures Recorded(s', slots)
  {
    assert RecordedUnder(s, slots, 0);
  }

  /** The memory with record and entry of call `c`. */
  ghost function Entered(s: Core, c: CallId, args: Started): Core {
    s.(pending := s.pending[args.id := c], calls := s.calls[c := Call(Sent, false, false, 0, [])],
       started := s.started[c := args])
  }

  /** The memory without them. */
  ghost function Withdrawn(s: Core, c: CallId, id: U32): Core {
    s.(pending := s.pending - {id}, calls := s.calls - {c}, started := s.started - {c})
  }

  /** Taking out what was put in fresh leaves the memory as it was. */
  lemma EnteredWithdrawn(s: Core, c: CallId, args: Started)
    requires Fresh(s, c) && args.id !in s.pending
    ensures Withdrawn(Entered(s, c, args), c, args.id) == s
  {
  }

  lemma EnteredRecorded(s: Core, slots: map<CallId, Slot>, c: CallId, args: Started)
    requires Recorded(s, slots) && Fresh(s, c)
    ensures Recorded(Entered(s, c, args), slots[c := Slot(args.id, args.bufSize)])
  {
    assert RecordedUnder(s, slots, 0);
  }

  lemma RemovedRecorded(s: Core, s': Core, slots: map<CallId, Slot>, c: CallId)
    requires Recorded(s, slots) && c in s.calls && c in slots
    requires s'.pending == s.pending - {slots[c].number} && s'.calls == s.calls - {c}
    requires s'.started == s.started || s'.started == s.started - {c}
    ensures Recorded(s', slots - {c})
  {
    assert RecordedUnder(s, slots, 0);
  }

  lemma MirroredTaken(content: map<Key, CallId>, numbers: map<U32, CallId>)
    requires Mirrors(content, numbers)
    ensures Taken(content) == numbers.Keys
  {
    assert MirrorsUnder(content, numbers, 0);
  }

  /** Until the numbers wrap around, there is always one left for the next call. */
  lemma NumberLeft(s: Core)
    requires Numbered(s) && Tabled(s) && s.drawn < NUMBERS
    ensures |s.pending| < NUMBERS
  {
    forall id | id in s.pending.Keys ensures 1 <= id <= s.drawn {
      assert HasRecord(s, id);
    }
    AllNumbers(s.pending.Keys, s.drawn);
  }

  /** The memory after a number was drawn. */
  ghost function Drawn(s: Core, skipped: nat, id: U32): Core {
    s.(next := Successor(id), drawn := s.drawn + skipped + 1)
  }

  /** The three ways a first critical section ends are steps of the protocol. */
  lemma StartedIsStep(s: Core, c: CallId, args: Started, skipped: nat)
    requires Fresh(s, c) && Draws(s, skipped, args.id)
    ensures CanAct(s, Action.Start(c, args, skipped))
    ensures Act(s, Action.Start(c, args, skipped)) == Entered(Drawn(s, skipped, args.id), c, args)
  {
  }

  lemma FailedIsStep(s: Core, c: CallId, skipped: nat, id: U32, status: U16)
    requires Fresh(s, c) && Draws(s, skipped, id)
    requires status == STATUS_INTERNAL_ERROR || status == STATUS_TRANSPORT_ERROR
    ensures CanAct(s, StartFails(c, skipped, status))
    ensures Act(s, StartFails(c, skipped, status))
         == Drawn(s, skipped, id).(results := s.results[c := Result(false, 0 - status, [])])
  {
  }

  class CallTable {
    const pending: HashMap<CallId>
    const generator: Generator<CallId>
    var calls: map<CallId, Call>
    var slots: map<CallId, Slot>

    ghost var numbers: map<U32, CallId>
    ghost var started: map<CallId, Started>
    ghost var results: map<CallId, Result>
    ghost var drawn: nat

    ghost function Abstract(): Core
      reads this, generator
    {
      Core(generator.nextSeq, numbers, calls, results, started, drawn)
    }

    ghost predicate Valid()
      reads this, pending, generator
    {
      && generator.pending == pending && generator.Valid()
      && Mirrors(pending.content, numbers) && Recorded(Abstract(), slots)
    }

    constructor (capacity: Byte)
      ensures Valid() && fresh(pending) && fresh(generator)
      ensures Abstract() == Core(1, map[], map[], map[], map[], 0)
    {
      var table := new HashMap<CallId>(capacity, IntKeys);
      pending := table;
      generator := new Generator<CallId>(table);
      calls, slots, numbers, started, results, drawn := map[], map[], map[], map[], map[], 0;
    }

    /**
      The first critical section of `rpc_call_with_tlv`.  `memory` says whether record and
      waiter can be allocated, `sent` whether the request can be sent.
     */
    method Start(c: CallId, args: Started, memory: bool, sent: bool) returns (status: int, ghost action: Action)
      requires Valid() && Fresh(Abstract(), c) && |numbers| < NUMBERS
      modifies this, pending, generator
      ensures Valid() && CanAct(old(Abstract()), action) && Abstract() == Act(old(Abstract()), action)
      ensures memory && sent ==>
        status == 0 && action.Start? && action.c == c && action.args == args.(id := action.args.id)
      ensures !memory ==> status == 0 - STATUS_INTERNAL_ERROR && action.StartFails? && action.c == c
      ensures memory && !sent ==> status == 0 - STATUS_TRANSPORT_ERROR && action.StartFails? && action.c == c
    {
      ghost var s := Abstract();
      var id;
      ghost var skipped;
      id, skipped := DrawNumber();
      status := Register(c, args.(id := id), memory, sent);
      if status == 0 {
        action := Action.Start(c, args.(id := id), skipped);
        StartedIsStep(s, c, args.(id := id), skipped);
      } else {
        action := StartFails(c, skipped, if memory then STATUS_TRANSPORT_ERROR else STATUS_INTERNAL_ERROR);
        FailedIsStep(s, c, skipped, id, action.status);
      }
    }

    /** Allocates the record, enters it and sends; undoes that if it cannot be sent. */
    method Register(c: CallId, args: Started, memory: bool, sent: bool) returns (status: int)
      requires Valid() && Fresh(Abstract(), c) && IsNumber(args.id) && args.id !in numbers
      modifies `calls, `slots, `numbers, `started, `results, pending
      ensures Valid()
      ensures status == if !memory then 0 - STATUS_INTERNAL_ERROR else if !sent then 0 - STATUS_TRANSPORT_ERROR else 0
      ensures var s := old(Abstract());
        Abstract() == if status == 0 then Entered(s, c, args)
                      else s.(results := s.results[c := Result(false, status, [])])
    {
      if !memory {
        status := 0 - STATUS_INTERNAL_ERROR;
      } else {
        status := 0;
        EnteredWithdrawn(Abstract(), c, args);
        Enter(c, args);
        if !sent {
          Withdraw(c, args.id);
          status := 0 - STATUS_TRANSPORT_ERROR;
        }
      }
      ghost var ended := Result(false, status, []);
      ghost var s := Abstract();
      results := if status == 0 then results else results[c := ended];
      HistoryRecorded(s, Abstract(), slots);
    }

    method DrawNumber() returns (id: U32, ghost skipped: nat)
      requires Valid() && |numbers| < NUMBERS
      modifies `drawn, generator
      ensures Valid() && Draws(old(Abstract()), skipped, id)
      ensures Abstract() == Drawn(old(Abstract()), skipped, id)
    {
      ghost var s := Abstract();
      MirroredTaken(pending.content, numbers);
      id, skipped := generator.Next();
      drawn := drawn + skipped + 1;
      Mirrored(pending.content, numbers, id);
      forall j | 0 <= j < skipped ensures After(s.next, j) in numbers {
        Mirrored(pending.content, numbers, After(s.next, j));
      }
      HistoryRecorded(s, Abstract(), slots);
    }

    /** The record of a new call, and its entry in the table. */
    method Enter(c: CallId, args: Started)
      requires Valid() && Fresh(Abstract(), c) && IsNumber(args.id)
      modifies `calls, `slots, `numbers, `started, pending
      ensures Valid() && c in slots && slots[c].number == args.id
      ensures Abstract() == Entered(old(Abstract()), c, args)
    {
      EnteredRecorded(Abstract(), slots, c, args);
      MirrorsPut(pending.content, numbers, args.id, c);
      calls, slots := calls[c := Call(Sent, false, false, 0, [])], slots[c := Slot(args.id, args.bufSize)];
      pending.Put(IntKey(args.id), c);
      numbers, started := numbers[args.id := c], started[c := args];
    }

    /** Takes entry and record out again, as a call does whose request was not sent. */
    method Withdraw(c: CallId, id: U32)
      requires Valid() && c in calls && c in slots && slots[c].number == id
      modifies `calls, `slots, `numbers, `started, pending
      ensures Valid() && Abstract() == Withdrawn(old(Abstract()), c, id)
    {
      RemovedRecorded(Abstract(), Withdrawn(Abstract(), c, id), slots, c);
      MirrorsRemoved(pending.content, numbers, id);
      var _ := pending.Remove(IntKey(id));
      calls, slots := calls - {c}, slots - {c};
      numbers, started := numbers - {id}, started - {c};
    }

    /** `rpc_handle_response`. */
    method HandleResponse(id: U32, a: Answer)
      requires Valid()
      modifies `calls
      ensures Valid() && Abstract() == CallProtocol.HandleResponse(old(Abstract()), id, a)
    {
      Mirrored(pending.content, numbers, id);
      var found := pending.Get(IntKey(id));
      if found.None? {
        return;
      }
      var c := found.value;
      RecordOf(Abstract(), slots, c, id);
      var call, room := calls[c], slots[c].room;
      call := call.(buf := if |a.payload| > room then a.payload[..room] else a.payload);
      call := call.(status := a.status);
      call := call.(done := true);
      SetCall(c, call.(signaled := true));
    }

    /** Writes to the record of a call. */
    method SetCall(c: CallId, call: Call)
      requires Valid() && c in calls
      modifies `calls
      ensures Valid() && Abstract() == old(Abstract()).(calls := old(calls)[c := call])
    {
      UpdateRecorded(Abstract(), slots, c, call);
      calls := calls[c := call];
    }

    /** Entering `rpc_waiter_wait`: a waiter that was signaled is done, another goes to sleep. */
    method Wait(c: CallId)
      requires Valid() && CanAct(Abstract(), Action.Wait(c))
      modifies `calls
      ensures Valid() && Abstract() == Act(old(Abstract()), Action.Wait(c))
    {
      var call := calls[c];
      if call.signaled {
        SetCall(c, call.(signaled := false, phase := Returned(true)));
      } else {
        SetCall(c, call.(phase := Blocked));
      }
    }

    /** A sleeper finds its waiter signaled. */
    method Wake(c: CallId)
      requires Valid() && CanAct(Abstract(), Action.Wake(c))
      modifies `calls
      ensures Valid() && Abstract() == Act(old(Abstract()), Action.Wake(c))
    {
      SetCall(c, calls[c].(signaled := false, phase := Returned(true)));
    }

    /** A sleeper gives up. */
    method TimeOut(c: CallId)
      requires Valid() && CanAct(Abstract(), Action.TimeOut(c))
      modifies `calls
      ensures Valid() && Abstract() == Act(old(Abstract()), Action.TimeOut(c))
    {
      SetCall(c, calls[c].(phase := Returned(false)));
    }

    /** The last critical section of `rpc_call_with_tlv`. */
    method Finish(c: CallId) returns (r: Result)
      requires Valid() && CanAct(Abstract(), Action.Finish(c))
      modifies `calls, `slots, `numbers, `results, pending
      ensures Valid() && Abstract() == Act(old(Abstract()), Action.Finish(c)) && r == Abstract().results[c]
    {
      RecordOf(Abstract(), slots, c, 0);
      var call, id := calls[c], slots[c].number;
      RemovedRecorded(Abstract(), Act(Abstract(), Action.Finish(c)), slots, c);
      MirrorsRemoved(pending.content, numbers, id);
      var _ := pending.Remove(IntKey(id));
      var status: int := STATUS_TIMEOUT;
      if call.phase.ok {
        status := call.status;
      }
      r := Result(call.phase.ok, status, call.buf);
      calls, slots, numbers := calls - {c}, slots - {c}, numbers - {id};
      results := results[c := r];
    }
  }
}
