/**
  The flags of an I/O descriptor: poll events and requests to be called back, each
  made under one lock, in whatever order the threads get it.
 */
module Descriptors {

  datatype Kind = Request | PollEvent

  /** One locked section: what it was, whether it answered an earlier one of the other
      kind, and whether there was a callback to schedule then. */
  datatype Entry = Entry(kind: Kind, fired: bool, callback: bool)

  function Other(kind: Kind): Kind {
    if kind == Request then PollEvent else Request
  }

  /** There is an entry of that kind that has not been answered, then or later. */
  ghost predicate Unanswered(log: seq<Entry>, kind: Kind) {
    exists i {:trigger log[i]} :: 0 <= i < |log| && log[i].kind == kind &&
      forall j {:trigger log[j]} :: i <= j < |log| ==> !log[j].fired
  }

  /** Every section answered exactly if there was something to answer. */
  ghost predicate Rightly(log: seq<Entry>) {
    forall i {:trigger log[i]} :: 0 <= i < |log| ==> (log[i].fired <==> Unanswered(log[..i], Other(log[i].kind)))
  }

  function Fired(log: seq<Entry>): nat {
    if log == [] then 0 else Fired(log[..|log| - 1]) + if log[|log| - 1].fired then 1 else 0
  }

  /** How many callbacks were scheduled. */
  function Called(log: seq<Entry>): nat {
    if log == [] then 0
    else Called(log[..|log| - 1]) + if log[|log| - 1].fired && log[|log| - 1].callback then 1 else 0
  }

  function Number(log: seq<Entry>, kind: Kind): nat {
    if log == [] then 0 else Number(log[..|log| - 1], kind) + if log[|log| - 1].kind == kind then 1 else 0
  }

  /** The two flags of one direction say exactly what is unanswered. */
  ghost predicate Flags(can: bool, waiting: bool, log: seq<Entry>) {
    && (can <==> Unanswered(log, PollEvent))
    && (waiting <==> Unanswered(log, Request))
    && !(can && waiting) && Rightly(log)
    && Fired(log) + (if waiting then 1 else 0) <= Number(log, Request)
    && Fired(log) + (if can then 1 else 0) <= Number(log, PollEvent)
  }

  lemma UnansweredMore(log: seq<Entry>, e: Entry, kind: Kind)
    ensures Unanswered(log + [e], kind) <==> !e.fired && (Unanswered(log, kind) || e.kind == kind)
  {
    var more := log + [e];
    assert more[|log|] == e;
    if Unanswered(log, kind) && !e.fired {
      var i :| 0 <= i < |log| && log[i].kind == kind && forall j {:trigger log[j]} :: i <= j < |log| ==> !log[j].fired;
      assert more[i].kind == kind;
      forall j | i <= j < |more|
        ensures !more[j].fired
      {
        if j < |log| { assert more[j] == log[j]; }
      }
    }
    if Unanswered(more, kind) {
      var i :| 0 <= i < |more| && more[i].kind == kind
               && forall j {:trigger more[j]} :: i <= j < |more| ==> !more[j].fired;
      if i < |log| {
        assert log[i] == more[i];
        forall j | i <= j < |log|
          ensures !log[j].fired
        {
          assert log[j] == more[j];
        }
      }
    }
  }

  lemma RightlyMore(log: seq<Entry>, e: Entry)
    requires Rightly(log) && (e.fired <==> Unanswered(log, Other(e.kind)))
    ensures Rightly(log + [e])
  {
    hide Unanswered;
    var more := log + [e];
    forall i | 0 <= i < |more|
      ensures more[i].fired <==> Unanswered(more[..i], Other(more[i].kind))
    {
      assert more[..i] == log[..i];
      if i == |log| {
        assert log[..i] == log;
      } else {
        assert more[i] == log[i];
      }
    }
  }

  /** A locked section keeps the flags right: it fires exactly if the other side is
      already there, and otherwise leaves its own mark. */
  lemma FlagsMore(can: bool, waiting: bool, log: seq<Entry>, kind: Kind, callback: bool)
    requires Flags(can, waiting, log)
    ensures var fired := if kind == Request then can else waiting;
            && Flags(!fired && (can || kind == PollEvent), !fired && (waiting || kind == Request),
                     log + [Entry(kind, fired, callback)])
            && (fired <==> Unanswered(log, Other(kind)))
  {
    hide Unanswered, Rightly;
    var e := Entry(kind, if kind == Request then can else waiting, callback);
    UnansweredMore(log, e, Request);
    UnansweredMore(log, e, PollEvent);
    RightlyMore(log, e);
    assert (log + [e])[..|log|] == log;
  }

  lemma FlagsSay(can: bool, waiting: bool, log: seq<Entry>)
    requires Flags(can, waiting, log)
    ensures can <==> Unanswered(log, PollEvent)
    ensures waiting <==> Unanswered(log, Request)
    ensures !(can && waiting) && Rightly(log)
    ensures Fired(log) <= Number(log, Request) && Fired(log) <= Number(log, PollEvent)
  {
  }

  class Descriptor {
    var canRead: bool
    var canWrite: bool
    var waitingRead: bool
    var waitingWrite: bool
    var readCallback: bool     // whether read_cb_ is not NULL
    var writeCallback: bool
    ghost var readLog: seq<Entry>
    ghost var writeLog: seq<Entry>

    ghost predicate Valid()
      reads this
    {
      Flags(canRead, waitingRead, readLog) && Flags(canWrite, waitingWrite, writeLog)
    }

    constructor (readCallback: bool, writeCallback: bool)
      ensures Valid() && readLog == [] && writeLog == []
      ensures this.readCallback == readCallback && this.writeCallback == writeCallback
    {
      canRead, canWrite, waitingRead, waitingWrite := false, false, false, false;
      this.readCallback, this.writeCallback := readCallback, writeCallback;
      readLog, writeLog := [], [];
    }

    method SetUpCalls(readCallback: bool, writeCallback: bool)
      requires Valid()
      modifies this`readCallback, this`writeCallback
      ensures Valid() && this.readCallback == readCallback && this.writeCallback == writeCallback
    {
      this.readCallback, this.writeCallback := readCallback, writeCallback;
    }

    /** Asks for a callback when there is something to read. An event that nobody has been
        told of is answered right away, by the callback if there is one. */
    method ReadWhenReady() returns (scheduled: bool)
      requires Valid()
      modifies this`canRead, this`waitingRead, this`readLog
      ensures Valid()
      ensures readLog == old(readLog) + [Entry(Request, old(Unanswered(readLog, PollEvent)), readCallback)]
      ensures scheduled <==> old(Unanswered(readLog, PollEvent)) && readCallback
    {
      hide Flags, Unanswered;
      FlagsMore(canRead, waitingRead, readLog, Request, readCallback);
      FlagsSay(canRead, waitingRead, readLog);
      var readyNow := false;
      if canRead {
        readyNow := true;
        canRead := false;
      } else {
        waitingRead := true;
      }
      readLog := readLog + [Entry(Request, readyNow, readCallback)];
      scheduled := readCallback && readyNow;
    }

    method WriteWhenReady() returns (scheduled: bool)
      requires Valid()
      modifies this`canWrite, this`waitingWrite, this`writeLog
      ensures Valid()
      ensures writeLog == old(writeLog) + [Entry(Request, old(Unanswered(writeLog, PollEvent)), writeCallback)]
      ensures scheduled <==> old(Unanswered(writeLog, PollEvent)) && writeCallback
    {
      hide Flags, Unanswered;
      FlagsMore(canWrite, waitingWrite, writeLog, Request, writeCallback);
      FlagsSay(canWrite, waitingWrite, writeLog);
      var readyNow := false;
      if canWrite {
        readyNow := true;
        canWrite := false;
      } else {
        waitingWrite := true;
      }
      writeLog := writeLog + [Entry(Request, readyNow, writeCallback)];
      scheduled := writeCallback && readyNow;
    }

    /** A poll event: answers a request if there is one, and is remembered otherwise. */
    method ReadIfWaiting() returns (scheduled: bool)
      requires Valid()
      modifies this`canRead, this`waitingRead, this`readLog
      ensures Valid()
      ensures readLog == old(readLog) + [Entry(PollEvent, old(Unanswered(readLog, Request)), readCallback)]
      ensures scheduled <==> old(Unanswered(readLog, Request)) && readCallback
    {
      hide Flags, Unanswered;
      FlagsMore(canRead, waitingRead, readLog, PollEvent, readCallback);
      FlagsSay(canRead, waitingRead, readLog);
      var scheduleNow := false;
      if waitingRead {
        scheduleNow := true;
        waitingRead := false;
      } else {
        canRead := true;
      }
      readLog := readLog + [Entry(PollEvent, scheduleNow, readCallback)];
      scheduled := readCallback && scheduleNow;
    }

    method WriteIfWaiting() returns (scheduled: bool)
      requires Valid()
      modifies this`canWrite, this`waitingWrite, this`writeLog
      ensures Valid()
      ensures writeLog == old(writeLog) + [Entry(PollEvent, old(Unanswered(writeLog, Request)), writeCallback)]
      ensures scheduled <==> old(Unanswered(writeLog, Request)) && writeCallback
    {
      hide Flags, Unanswered;
      FlagsMore(canWrite, waitingWrite, writeLog, PollEvent, writeCallback);
      FlagsSay(canWrite, waitingWrite, writeLog);
      var scheduleNow := false;
      if waitingWrite {
        scheduleNow := true;
        waitingWrite := false;
      } else {
        canWrite := true;
      }
      writeLog := writeLog + [Entry(PollEvent, scheduleNow, writeCallback)];
      scheduled := writeCallback && scheduleNow;
    }
  }

  // ----------------------------------------------------------------- interleavings

  datatype Call =
    | AskRead | AskWrite | CanRead | CanWrite
    | SetCallbacks(read: bool, write: bool)

  /** What a section was, and whether it had a callback. */
  type Occasion = (Kind, bool)

  function Occasions(log: seq<Entry>): seq<Occasion> {
    if log == [] then []
    else Occasions(log[..|log| - 1]) + [(log[|log| - 1].kind, log[|log| - 1].callback)]
  }

  /** Whether the read and the write callback are set after the calls. */
  function CallbacksAfter(read: bool, write: bool, calls: seq<Call>): (bool, bool) {
    if calls == [] then (read, write)
    else
      match calls[|calls| - 1]
      case SetCallbacks(r, w) => (r, w)
      case _ => CallbacksAfter(read, write, calls[..|calls| - 1])
  }

  /** The part of an interleaving that is about reading, in order. */
  function ReadSide(read: bool, write: bool, calls: seq<Call>): seq<Occasion> {
    if calls == [] then []
    else
      var before := calls[..|calls| - 1];
      var there := CallbacksAfter(read, write, before).0;
      ReadSide(read, write, before) +
      match calls[|calls| - 1]
      case AskRead => [(Request, there)]
      case CanRead => [(PollEvent, there)]
      case _ => []
  }

  function WriteSide(read: bool, write: bool, calls: seq<Call>): seq<Occasion> {
    if calls == [] then []
    else
      var before := calls[..|calls| - 1];
      var there := CallbacksAfter(read, write, before).1;
      WriteSide(read, write, before) +
      match calls[|calls| - 1]
      case AskWrite => [(Request, there)]
      case CanWrite => [(PollEvent, there)]
      case _ => []
  }

  /** One call, whose callback counts in its direction. */
  method OneCall(d: Descriptor, c: Call) returns (readCalls: nat, writeCalls: nat)
    requires d.Valid()
    modifies d
    ensures d.Valid()
    ensures Occasions(d.readLog) == Occasions(old(d.readLog)) +
              match c
              case AskRead => [(Request, old(d.readCallback))]
              case CanRead => [(PollEvent, old(d.readCallback))]
              case _ => []
    ensures Occasions(d.writeLog) == Occasions(old(d.writeLog)) +
              match c
              case AskWrite => [(Request, old(d.writeCallback))]
              case CanWrite => [(PollEvent, old(d.writeCallback))]
              case _ => []
    ensures (d.readCallback, d.writeCallback) ==
              if c.SetCallbacks? then (c.read, c.write) else (old(d.readCallback), old(d.writeCallback))
    ensures Called(d.readLog) == Called(old(d.readLog)) + readCalls
    ensures Called(d.writeLog) == Called(old(d.writeLog)) + writeCalls
  {
    hide Flags, Unanswered;
    ghost var r, w := d.readLog, d.writeLog;
    var scheduled := false;
    match c {
      case AskRead => scheduled := d.ReadWhenReady();
      case CanRead => scheduled := d.ReadIfWaiting();
      case AskWrite => scheduled := d.WriteWhenReady();
      case CanWrite => scheduled := d.WriteIfWaiting();
      case SetCallbacks(read, write) => d.SetUpCalls(read, write);
    }
    var n := if scheduled then 1 else 0;
    readCalls, writeCalls := if c.AskRead? || c.CanRead? then n else 0, if c.AskWrite? || c.CanWrite? then n else 0;
    assert d.readLog == r || d.readLog[..|r|] == r;
    assert d.writeLog == w || d.writeLog[..|w|] == w;
  }

  /** Any interleaving of requests, poll events and changes of callbacks. The history of
      each direction is that part of the interleaving, every section answered exactly if
      there was something to answer, the flags remember exactly what is unanswered, and
      the callbacks scheduled are those of the answering sections that had one. */
  method AnyOrder(read: bool, write: bool, calls: seq<Call>) returns (d: Descriptor, readCalls: nat, writeCalls: nat)
    ensures d.Valid() && Rightly(d.readLog) && Rightly(d.writeLog)
    ensures Occasions(d.readLog) == ReadSide(read, write, calls)
    ensures Occasions(d.writeLog) == WriteSide(read, write, calls)
    ensures (d.canRead <==> Unanswered(d.readLog, PollEvent)) && (d.waitingRead <==> Unanswered(d.readLog, Request))
    ensures (d.canWrite <==> Unanswered(d.writeLog, PollEvent)) && (d.waitingWrite <==> Unanswered(d.writeLog, Request))
    ensures !(d.canRead && d.waitingRead) && !(d.canWrite && d.waitingWrite)
    ensures readCalls == Called(d.readLog) <= Fired(d.readLog) && writeCalls == Called(d.writeLog) <= Fired(d.writeLog)
    ensures Fired(d.readLog) <= Number(d.readLog, Request) && Fired(d.readLog) <= Number(d.readLog, PollEvent)
    ensures Fired(d.writeLog) <= Number(d.writeLog, Request) && Fired(d.writeLog) <= Number(d.writeLog, PollEvent)
  {
    hide Flags, Unanswered, Fired, Number, Called, Occasions;
    d := new Descriptor(read, write);
    readCalls, writeCalls := 0, 0;
    NothingYet();
    assert calls[..0] == [];
    for i := 0 to |calls|
      invariant fresh(d) && d.Valid()
      invariant (d.readCallback, d.writeCallback) == CallbacksAfter(read, write, calls[..i])
      invariant Occasions(d.readLog) == ReadSide(read, write, calls[..i])
      invariant Occasions(d.writeLog) == WriteSide(read, write, calls[..i])
      invariant readCalls == Called(d.readLog) && writeCalls == Called(d.writeLog)
    {
      assert calls[..i + 1][..i] == calls[..i] && calls[..i + 1][i] == calls[i];
      var r, w := OneCall(d, calls[i]);
      readCalls, writeCalls := readCalls + r, writeCalls + w;
    }
    assert calls[..|calls|] == calls;
    FlagsSay(d.canRead, d.waitingRead, d.readLog);
    FlagsSay(d.canWrite, d.waitingWrite, d.writeLog);
    CalledAtMost(d.readLog);
    CalledAtMost(d.writeLog);
  }

  lemma NothingYet()
    ensures Occasions([]) == [] && Called([]) == 0
  {
  }

  /** No wake-up is lost exactly if every answering section had a callback. */
  lemma {:induction false} CalledAtMost(log: seq<Entry>)
    ensures Called(log) <= Fired(log)
    ensures Called(log) == Fired(log) <==>
            forall i {:trigger log[i]} :: 0 <= i < |log| && log[i].fired ==> log[i].callback
  {
    if log != [] {
      var n := |log| - 1;
      CalledAtMost(log[..n]);
      assert forall i {:trigger log[i]} :: 0 <= i < n ==> log[..n][i] == log[i];
    }
  }

  lemma EventThenRequest(e: Entry, f: Entry)
    requires e.kind == PollEvent && !e.fired
    ensures !Unanswered([], Request) && Unanswered([e], PollEvent)
    ensures Fired([e, f]) == (if f.fired then 1 else 0)
    ensures Called([e, f]) == (if f.fired && f.callback then 1 else 0)
  {
    assert [e][0] == e && [e, f][..1] == [e] && [e][..0] == [];
    assert Fired([e]) == Fired([]) + 0 && Called([e]) == Called([]) + 0;
  }

  /** With no callback set, a request and an event cancel out and nobody is told. */
  method LostWakeUp() returns (d: Descriptor, scheduled: bool)
    ensures d.Valid() && |d.readLog| == 2 && !d.canRead && !d.waitingRead
    ensures Fired(d.readLog) == 1 && Called(d.readLog) == 0 && !scheduled
  {
    hide Flags, Unanswered, Fired, Called;
    d := new Descriptor(false, true);
    var first := d.ReadIfWaiting();
    var e, f := Entry(PollEvent, false, false), Entry(Request, true, false);
    EventThenRequest(e, f);
    assert d.readLog == [e];
    scheduled := d.ReadWhenReady();
    assert d.readLog == [e, f];
    UnansweredMore([e], f, PollEvent);
    UnansweredMore([e], f, Request);
    assert [e] + [f] == [e, f];
    FlagsSay(d.canRead, d.waitingRead, d.readLog);
  }
}
