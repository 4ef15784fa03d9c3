/**
 * The inotify wrapper: splitting each read buffer into records and handing
 * them to the callback in order, the read loop that drains the non-blocking
 * descriptor, and the add/remove-watch calls with their error paths.
 */
module INotifySource {
  import opened Wrappers
  import opened InotifyFlags
  import opened NotifyEvents
  import opened Paths

  datatype NotifyError =
    | ReadFailed(errno: nat)          // read() failed with an errno other than EAGAIN
    | AddWatchFailed(path: Path)      // inotify_add_watch returned -1
    | RemoveWatchFailed(wd: int)      // inotify_rm_watch returned -1

  const EAGAIN: nat := 11

  // ---------------------------------------------------------------------
  // One buffer of records

  /** buf is a whole number of kernel records laid end to end. */
  ghost predicate WellFormed(buf: seq<Byte>)
    decreases |buf|
  {
    buf == [] || (RecordAt(buf) && WellFormed(buf[RecordSize(buf)..]))
  }

  /** The events of a well-formed buffer, in buffer order. */
  ghost function Records(buf: seq<Byte>): seq<NotifyEvent>
    requires WellFormed(buf)
    decreases |buf|
  {
    if buf == [] then [] else [Decode(buf)] + Records(buf[RecordSize(buf)..])
  }

  /**
   * The inner loop of the read loop: walk the buffer record by record,
   * stepping over header and name area, and pass one event per record to
   * the callback (here: append it to the output) in buffer order.
   */
  method DecodeBatch(buf: seq<Byte>) returns (events: seq<NotifyEvent>)
    requires WellFormed(buf)
    ensures events == Records(buf)
  {
    events := [];
    var ptr := 0;
    while ptr < |buf|
      invariant 0 <= ptr <= |buf|
      invariant WellFormed(buf[ptr..])
      invariant events + Records(buf[ptr..]) == Records(buf)
      decreases |buf| - ptr
    {
      var rec := buf[ptr..];
      RecordsStep(rec, events);
      var size := RecordSize(rec);
      assert rec[size..] == buf[ptr + size..];
      events := events + [Decode(rec)];
      ptr := ptr + size;
    }
    assert buf[ptr..] == [];
  }

  /** One turn of the walk: the record at the front is decoded and stepped over. */
  lemma RecordsStep(rec: seq<Byte>, events: seq<NotifyEvent>)
    requires rec != [] && WellFormed(rec)
    ensures RecordAt(rec) && WellFormed(rec[RecordSize(rec)..])
    ensures events + Records(rec) == (events + [Decode(rec)]) + Records(rec[RecordSize(rec)..])
  {
    var d, rest := Decode(rec), Records(rec[RecordSize(rec)..]);
    assert Records(rec) == [d] + rest;
    assert events + ([d] + rest) == (events + [d]) + rest;
  }

  /** The kernel's layout of a list of events, pads[i] NUL bytes of alignment after event i's name. */
  function EncodeAll(evs: seq<NotifyEvent>, pads: seq<nat>): (buf: seq<Byte>)
    requires |pads| == |evs|
    requires forall i :: 0 <= i < |evs| ==> Encodable(evs[i]) && (evs[i].name != "" ==> |evs[i].name| + 1 + pads[i] < TwoTo32)
  {
    if evs == [] then [] else Encode(evs[0], pads[0]) + EncodeAll(evs[1..], pads[1..])
  }

  /**
   * Whatever the padding, a buffer written by the kernel is well formed and
   * the callback sees exactly the kernel's events, one per record, in order.
   */
  lemma {:induction false} RecordsOfEncodeAll(evs: seq<NotifyEvent>, pads: seq<nat>)
    requires |pads| == |evs|
    requires forall i :: 0 <= i < |evs| ==> Encodable(evs[i]) && (evs[i].name != "" ==> |evs[i].name| + 1 + pads[i] < TwoTo32)
    ensures WellFormed(EncodeAll(evs, pads))
    ensures Records(EncodeAll(evs, pads)) == evs
  {
    if evs != [] {
      var buf := EncodeAll(evs, pads);
      EncodeAllFront(evs, pads);
      RecordsOfEncodeAll(evs[1..], pads[1..]);
      RecordsCons(buf);
      assert evs == [evs[0]] + evs[1..];
    }
  }

  /** The first record of the kernel's buffer is the first event's, followed by the others'. */
  lemma EncodeAllFront(evs: seq<NotifyEvent>, pads: seq<nat>)
    requires |pads| == |evs| && evs != []
    requires forall i :: 0 <= i < |evs| ==> Encodable(evs[i]) && (evs[i].name != "" ==> |evs[i].name| + 1 + pads[i] < TwoTo32)
    ensures RecordAt(EncodeAll(evs, pads))
    ensures EncodeAll(evs, pads)[RecordSize(EncodeAll(evs, pads))..] == EncodeAll(evs[1..], pads[1..])
    ensures Decode(EncodeAll(evs, pads)) == evs[0]
  {
    var tail := EncodeAll(evs[1..], pads[1..]);
    var buf := Encode(evs[0], pads[0]) + tail;
    DecodeEncode(evs[0], pads[0], tail);
    assert buf[RecordSize(buf)..] == tail;
  }

  /** A record followed by a well-formed rest is well formed, its events the record's then the rest's. */
  lemma RecordsCons(buf: seq<Byte>)
    requires RecordAt(buf) && WellFormed(buf[RecordSize(buf)..])
    ensures WellFormed(buf)
    ensures Records(buf) == [Decode(buf)] + Records(buf[RecordSize(buf)..])
  {
  }

  // ---------------------------------------------------------------------
  // The read loop over the non-blocking descriptor

  /** What one read() returned: some bytes (possibly none), or -1 with errno. */
  datatype ReadResult = Bytes(data: seq<Byte>) | Error(errno: nat)

  /** Every successful read delivers whole records. */
  ghost predicate ReadsWellFormed(script: seq<ReadResult>) {
    forall i :: 0 <= i < |script| && script[i].Bytes? ==> WellFormed(script[i].data)
  }

  /**
   * What draining the descriptor delivers, given the results its reads
   * return in turn (an exhausted script reads as EAGAIN): the events of
   * every batch until a read returns nothing or fails with EAGAIN, or those
   * events and the error of a read that fails otherwise.
   */
  ghost function Drain(script: seq<ReadResult>): (r: (seq<NotifyEvent>, Outcome<NotifyError>))
    requires ReadsWellFormed(script)
  {
    if script == [] then ([], Pass)
    else match script[0]
      case Error(errno) =>
        if errno != EAGAIN then ([], Fail(ReadFailed(errno))) else ([], Pass)
      case Bytes(data) =>
        if data == [] then ([], Pass)
        else
          var rest := Drain(script[1..]);
          (Records(data) + rest.0, rest.1)
  }

  /**
   * handle_events: read until nothing is left, handing every event to the
   * callback in order; a read error other than EAGAIN ends the loop with an
   * error after the events of the earlier reads have been delivered.
   */
  method HandleEvents(script: seq<ReadResult>) returns (delivered: seq<NotifyEvent>, outcome: Outcome<NotifyError>)
    requires ReadsWellFormed(script)
    ensures (delivered, outcome) == Drain(script)
  {
    delivered := [];
    var i := 0;
    while true
      invariant 0 <= i <= |script|
      invariant delivered + Drain(script[i..]).0 == Drain(script).0
      invariant Drain(script[i..]).1 == Drain(script).1
      decreases |script| - i
    {
      var r := if i < |script| then script[i] else Error(EAGAIN);
      assert i < |script| ==> script[i..][0] == script[i] && script[i..][1..] == script[i + 1..];
      if r.Error? && r.errno != EAGAIN {
        assert script[i..] != [] && script[i..][0] == r;
        assert Drain(script[i..]) == ([], Fail(ReadFailed(r.errno)));
        assert delivered + [] == delivered;
        return delivered, Fail(ReadFailed(r.errno));
      }
      if r.Error? || r.data == [] {
        assert i == |script| ==> script[i..] == [];
        assert Drain(script[i..]) == ([], Pass);
        assert delivered + [] == delivered;
        return delivered, Pass;
      }
      var batch := DecodeBatch(r.data);
      delivered := delivered + batch;
      i := i + 1;
    }
  }

  /** Reads that each return a whole kernel buffer, then run dry. */
  lemma {:induction false} DrainOfBatches(batches: seq<seq<NotifyEvent>>, script: seq<ReadResult>)
    requires |script| == |batches| + 1 && script[|batches|] == Error(EAGAIN)
    requires forall i :: 0 <= i < |batches| ==> script[i].Bytes? && script[i].data != [] && WellFormed(script[i].data) && Records(script[i].data) == batches[i]
    ensures ReadsWellFormed(script)
    ensures Drain(script) == (Flatten(batches), Pass)
  {
    if batches != [] {
      DrainOfBatches(batches[1..], script[1..]);
    }
  }

  function Flatten<T>(xss: seq<seq<T>>): seq<T> {
    if xss == [] then [] else xss[0] + Flatten(xss[1..])
  }

  /** A failing read reports its errno and nothing after it is read. */
  lemma {:induction false} DrainStopsAtError(script: seq<ReadResult>, k: nat)
    requires ReadsWellFormed(script) && k < |script|
    requires script[k].Error? && script[k].errno != EAGAIN
    requires forall i :: 0 <= i < k ==> script[i].Bytes? && script[i].data != []
    ensures Drain(script).1 == Fail(ReadFailed(script[k].errno))
    ensures Drain(script).0 == Drain(script[..k]).0
  {
    if k > 0 {
      assert script[1..][..k - 1] == script[..k][1..];
      DrainStopsAtError(script[1..], k - 1);
    }
  }

  // ---------------------------------------------------------------------
  // Watches

  /**
   * The inotify instance as the watcher sees it. `refused` stands for the
   * paths inotify_add_watch rejects (missing, not accessible, ...);
   * watches get fresh descriptors in increasing order; `removals` logs
   * every removeWatch call.
   */
  class Notifier {
    var nextWd: int
    var live: set<int>
    const refused: set<Path>
    ghost var removals: seq<int>

    ghost predicate Valid()
      reads this
    {
      1 <= nextWd && forall w :: w in live ==> 1 <= w < nextWd
    }

    constructor (refused: set<Path>)
      ensures Valid() && this.refused == refused
      ensures nextWd == 1 && live == {} && removals == []
    {
      nextWd := 1;
      live := {};
      this.refused := refused;
      removals := [];
    }

    /** monitorPath: a new watch and its descriptor, or an error for a refused path. */
    method MonitorPath(p: Path) returns (r: Result<int, NotifyError>)
      requires Valid()
      modifies this
      ensures Valid() && removals == old(removals)
      ensures p in refused ==> r == Failure(AddWatchFailed(p)) && nextWd == old(nextWd) && live == old(live)
      ensures p !in refused ==>
        r == Success(old(nextWd)) && nextWd == old(nextWd) + 1 && live == old(live) + {old(nextWd)}
    {
      if p in refused {
        return Failure(AddWatchFailed(p));
      }
      r := Success(nextWd);
      live := live + {nextWd};
      nextWd := nextWd + 1;
    }

    /**
     * The kernel drops a watch by itself when its directory is deleted or
     * its filesystem unmounted, and announces that with IN_IGNORED; a
     * later removeWatch of it fails.
     */
    method Dropped(wd: int)
      requires Valid()
      modifies this
      ensures Valid() && nextWd == old(nextWd) && removals == old(removals)
      ensures live == old(live) - {wd}
    {
      live := live - {wd};
    }

    /** removeWatch: fails exactly when the descriptor names no live watch. */
    method RemoveWatch(wd: int) returns (o: Outcome<NotifyError>)
      requires Valid()
      modifies this
      ensures Valid() && nextWd == old(nextWd)
      ensures removals == old(removals) + [wd]
      ensures live == old(live) - {wd}
      ensures o == if wd in old(live) then Pass else Fail(RemoveWatchFailed(wd))
    {
      removals := removals + [wd];
      o := if wd in live then Pass else Fail(RemoveWatchFailed(wd));
      live := live - {wd};
    }
  }
}
