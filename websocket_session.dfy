/**
 * One websocket subscriber: its outbound queue with at most one write in
 * flight, its join/leave calls on the shared state, and the dispatch of an
 * incoming (already parsed) JSON command to at most one subscribe call.
 */
module WebSocketSession {
  import opened Wrappers

  type Message = string

  /** The 64-bit integer ranges of the JSON library's number kinds. */
  type I64 = x: int | -0x8000_0000_0000_0000 <= x < 0x8000_0000_0000_0000
  type U64 = x: nat | x < 0x1_0000_0000_0000_0000

  const TwoTo64: int := 0x1_0000_0000_0000_0000

  /**
   * A parsed JSON value.  Integers keep the kind the parser gave them: a
   * signed 64-bit value, or an unsigned one above the signed range.
   * Floating-point numbers carry no payload here.
   */
  datatype Json =
    | Null
    | Boolean(b: bool)
    | Int64(i: I64)
    | Uint64(u: U64)
    | Double
    | Str(s: string)
    | Array(items: seq<Json>)
    | Object(fields: map<string, Json>)

  /** Conversion of a signed 64-bit value to the unsigned mask parameter. */
  function ToU64(i: I64): (u: U64)
    ensures (u - i) % TwoTo64 == 0
    ensures 0 <= i ==> u == i
  {
    if i < 0 then i + TwoTo64 else i
  }

  /** Reading the same 64 bits back as a signed value. */
  function FromU64(u: U64): (i: I64)
    ensures (u - i) % TwoTo64 == 0
  {
    if u < 0x8000_0000_0000_0000 then u else u - TwoTo64
  }

  /** The signed-to-unsigned conversion loses nothing. */
  lemma ToU64RoundTrip(i: I64)
    ensures FromU64(ToU64(i)) == i
  {
  }

  lemma ToU64Injective(i: I64, j: I64)
    ensures ToU64(i) == ToU64(j) ==> i == j
  {
    ToU64RoundTrip(i);
    ToU64RoundTrip(j);
  }

  /**
   * Which path processMessage takes on a message.  `Rejected` is the case
   * where the JSON library throws (not parseable, not an object, a command
   * that is not a string, a mask that is not a signed 64-bit integer) and
   * the exception is caught and logged.  A key that is absent reads as null.
   */
  datatype Dispatch =
    | Rejected
    | NoCommand
    | OtherCommand(command: string)
    | NoMask
    | Subscribe(mask: U64)

  function Field(o: map<string, Json>, key: string): Json
  {
    if key in o then o[key] else Null
  }

  function DispatchOf(parsed: Option<Json>): (d: Dispatch)
    ensures d.Subscribe? ==>
      parsed.Some? && parsed.value.Object? &&
      Field(parsed.value.fields, "command") == Str("subscribe") &&
      Field(parsed.value.fields, "mask").Int64? &&
      d.mask == ToU64(Field(parsed.value.fields, "mask").i)
    ensures (parsed.Some? && parsed.value.Object? &&
             Field(parsed.value.fields, "command") == Str("subscribe") &&
             Field(parsed.value.fields, "mask").Int64?) ==>
            d == Subscribe(ToU64(Field(parsed.value.fields, "mask").i))
    ensures parsed.None? || !parsed.value.Object? ==> d == Rejected
  {
    match parsed
    case None => Rejected
    case Some(v) =>
      if !v.Object? then Rejected
      else
        var command := Field(v.fields, "command");
        if command == Null then NoCommand
        else if !command.Str? then Rejected
        else if command.s != "subscribe" then OtherCommand(command.s)
        else
          var mask := Field(v.fields, "mask");
          if mask == Null then NoMask
          else if !mask.Int64? then Rejected
          else Subscribe(ToU64(mask.i))
  }

  /** The message a client sends to subscribe with a given mask. */
  function SubscribeCommand(mask: I64): Json
  {
    Object(map["command" := Str("subscribe"), "mask" := Int64(mask)])
  }

  /** A subscribe command is dispatched as a subscription to its own mask. */
  lemma SubscribeRoundTrip(mask: I64)
    ensures DispatchOf(Some(SubscribeCommand(mask))) == Subscribe(ToU64(mask))
    ensures FromU64(DispatchOf(Some(SubscribeCommand(mask))).mask) == mask
  {
    ToU64RoundTrip(mask);
  }

  /** Fields other than "command" and "mask" play no part. */
  lemma OtherFieldsIgnored(o: map<string, Json>, key: string, v: Json)
    requires key != "command" && key != "mask"
    ensures DispatchOf(Some(Object(o[key := v]))) == DispatchOf(Some(Object(o)))
  {
    assert Field(o[key := v], "command") == Field(o, "command");
    assert Field(o[key := v], "mask") == Field(o, "mask");
  }

  /** Without a "subscribe" command the mask is never looked at. */
  lemma OnlySubscribeReadsMask(o: map<string, Json>, v: Json)
    requires Field(o, "command") != Str("subscribe")
    ensures !DispatchOf(Some(Object(o))).Subscribe?
    ensures DispatchOf(Some(Object(o["mask" := v]))) == DispatchOf(Some(Object(o)))
  {
    assert Field(o["mask" := v], "command") == Field(o, "command");
  }

  /** A mask the library cannot read as a signed 64-bit integer subscribes nothing. */
  lemma UnreadableMaskRejected(o: map<string, Json>, mask: Json)
    requires Field(o, "command") == Str("subscribe")
    requires mask != Null && !mask.Int64?
    ensures DispatchOf(Some(Object(o["mask" := mask]))) == Rejected
  {
    assert Field(o["mask" := mask], "command") == Str("subscribe");
    assert Field(o["mask" := mask], "mask") == mask;
  }

  /** The calls a session makes on the shared state, whose bodies are not modelled. */
  datatype StateCall = Join(session: nat) | Leave(session: nat) | SubscribeCall(session: nat, mask: U64)

  /** The shared state, seen only through the log of calls made on it. */
  class SharedState {
    var calls: seq<StateCall>

    constructor()
      ensures calls == []
    {
      calls := [];
    }
  }

  class Session {
    const id: nat
    const state: SharedState
    /** The messages waiting to be written; the front one is being written. */
    var queue: seq<Message>
    /** Whether an asynchronous write is outstanding. */
    var writing: bool
    /** Every message handed to OnSend, in order. */
    ghost var enqueued: seq<Message>
    /** Every message a write was started for, in order. */
    ghost var started: seq<Message>
    /** Every message whose write completed without error, in order. */
    ghost var delivered: seq<Message>

    /**
     * Delivery is FIFO: what was enqueued is what was delivered followed by
     * the queue.  At most one write is outstanding, always for the front of
     * the queue; a failed write leaves its message at the front, with no
     * write outstanding.
     */
    ghost predicate Valid()
      reads this
    {
      enqueued == delivered + queue &&
      started == delivered + (if queue == [] then [] else [queue[0]]) &&
      (writing ==> queue != [])
    }

    constructor(id: nat, state: SharedState)
      ensures Valid()
      ensures this.id == id && this.state == state
      ensures queue == [] && !writing && enqueued == []
    {
      this.id := id;
      this.state := state;
      queue := [];
      writing := false;
      enqueued, started, delivered := [], [], [];
    }

    /** The session joins the shared state only after an accept without error. */
    method OnAccept(ok: bool)
      modifies state
      ensures state.calls == old(state.calls) + (if ok then [Join(id)] else [])
    {
      if !ok {
        return;
      }
      state.calls := state.calls + [Join(id)];
    }

    /** Destruction always leaves the shared state. */
    method Close()
      modifies state
      ensures state.calls == old(state.calls) + [Leave(id)]
    {
      state.calls := state.calls + [Leave(id)];
    }

    /**
     * Enqueues a message; a write is started, for that message, only when
     * the queue was empty.
     */
    method OnSend(m: Message) returns (write: Option<Message>)
      requires Valid()
      modifies this
      ensures Valid()
      ensures queue == old(queue) + [m] && enqueued == old(enqueued) + [m]
      ensures delivered == old(delivered)
      ensures write == (if old(queue) == [] then Some(m) else None)
      ensures writing == (old(writing) || write.Some?)
      ensures started == old(started) + (if write.Some? then [m] else [])
    {
      queue := queue + [m];
      enqueued := enqueued + [m];
      if |queue| > 1 {
        return None;
      }
      writing := true;
      started := started + [queue[0]];
      write := Some(queue[0]);
    }

    /**
     * Completion of the outstanding write.  An error leaves the queue as it
     * is and starts nothing; a success drops exactly the front message and
     * starts a write for the next one, if any.
     */
    method OnWrite(ok: bool) returns (next: Option<Message>)
      requires Valid() && writing
      modifies this
      ensures Valid()
      ensures enqueued == old(enqueued)
      ensures !ok ==> queue == old(queue) && !writing && next == None &&
                      started == old(started) && delivered == old(delivered)
      ensures ok ==> queue == old(queue)[1..] &&
                     delivered == old(delivered) + [old(queue)[0]] &&
                     next == (if |old(queue)| > 1 then Some(old(queue)[1]) else None) &&
                     writing == next.Some? &&
                     started == old(started) + (if next.Some? then [next.value] else [])
    {
      if !ok {
        writing := false;
        return None;
      }
      delivered := delivered + [queue[0]];
      queue := queue[1..];
      if queue != [] {
        started := started + [queue[0]];
        next := Some(queue[0]);
      } else {
        writing := false;
        next := None;
      }
    }

    /** The only effect of an incoming message is at most one subscribe call. */
    method ProcessMessage(parsed: Option<Json>)
      modifies state
      ensures state.calls == old(state.calls) +
        (match DispatchOf(parsed)
         case Subscribe(mask) => [SubscribeCall(id, mask)]
         case _ => [])
    {
      var d := DispatchOf(parsed);
      if d.Subscribe? {
        state.calls := state.calls + [SubscribeCall(id, d.mask)];
      }
    }
  }

}
