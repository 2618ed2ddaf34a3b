/**
 The logging pipeline of src/logging_sink.cpp and src/request_logger.cpp: request threads log
 synchronously until a sink is installed and queue records after that; one background worker
 moves records that have aged long enough to the sink captured with them. Every critical
 section, every write and every synchronous log call is one step; any interleaving is a run.
 */
module RequestLogger {
  import opened Options
  import opened Text
  import opened LogFiles

  const FLUSH_INTERVAL: int := 250_000_000  // 250 ms in nanoseconds

  datatype Record = Record(timestamp: string, message: string)

  datatype SinkKind = FileSink | SyslogSink

  /** A sink object, known by its identity. */
  datatype Sink = Sink(id: nat, kind: SinkKind)

  datatype Entry = Entry(record: Record, sink: Option<Sink>, stamp: int)

  datatype Written = Written(sink: Sink, record: Record, at: int)

  /** Where the background worker stands in its loop. */
  datatype Flusher = Idle | Sampled(now: int) | Delivering(sample: int, due: seq<Entry>)

  datatype Logger = Logger(
    clock: int,             // the steady clock
    sink: Option<Sink>,     // the installed sink
    queue: seq<Entry>,
    flusher: Flusher,
    waiting: seq<Record>,   // request threads past the sink test, not yet in the queue
    files: Files,
    enqueued: seq<Entry>,   // history: every entry ever queued
    written: seq<Written>,  // history: every write to a sink
    logged: string)         // history: every byte ever appended to the log file

  datatype Action =
    | Tick(delta: nat)
    | Install(newSink: Sink)
    | LogRequest(record: Record, entry: string)
    | Enqueue(index: nat)
    | Sample
    | Collect
    | Deliver
    | Rest

  function Init(clock: int): Logger {
    Logger(clock, None, [], Idle, [], map[], [], [], "")
  }

  // ---- One pass over the queue

  predicate IsDue(e: Entry, now: int) {
    now - e.stamp >= FLUSH_INTERVAL
  }

  function Due(q: seq<Entry>, now: int): seq<Entry> {
    if q == [] then [] else (if IsDue(q[0], now) then [q[0]] else []) + Due(q[1..], now)
  }

  function Keep(q: seq<Entry>, now: int): seq<Entry> {
    if q == [] then [] else (if IsDue(q[0], now) then [] else [q[0]]) + Keep(q[1..], now)
  }

  ghost predicate Sorted(q: seq<Entry>) {
    forall i, j :: 0 <= i < j < |q| ==> q[i].stamp <= q[j].stamp
  }

  lemma {:induction false} DueAppend(q: seq<Entry>, e: Entry, now: int)
    ensures Due(q + [e], now) == Due(q, now) + if IsDue(e, now) then [e] else []
  {
    hide IsDue;
    if q == [] {
      assert q + [e] == [e];
    } else {
      var head := if IsDue(q[0], now) then [q[0]] else [];
      assert (q + [e])[1..] == q[1..] + [e];
      assert Due(q + [e], now) == head + Due(q[1..] + [e], now);
      assert Due(q, now) == head + Due(q[1..], now);
      hide Due;
      DueAppend(q[1..], e, now);
    }
  }

  lemma {:induction false} KeepAppend(q: seq<Entry>, e: Entry, now: int)
    ensures Keep(q + [e], now) == Keep(q, now) + if IsDue(e, now) then [] else [e]
  {
    hide IsDue;
    if q == [] {
      assert q + [e] == [e];
    } else {
      var head := if IsDue(q[0], now) then [] else [q[0]];
      assert (q + [e])[1..] == q[1..] + [e];
      assert Keep(q + [e], now) == head + Keep(q[1..] + [e], now);
      assert Keep(q, now) == head + Keep(q[1..], now);
      hide Keep;
      KeepAppend(q[1..], e, now);
    }
  }

  lemma {:induction false} NothingDue(q: seq<Entry>, now: int)
    requires forall i :: 0 <= i < |q| ==> !IsDue(q[i], now)
    ensures Due(q, now) == [] && Keep(q, now) == q
  {
    hide IsDue;
    if q == [] {
    } else {
      NothingDue(q[1..], now);
    }
  }

  lemma YoungerThanFirst(q: seq<Entry>, now: int)
    requires Sorted(q) && q != [] && !IsDue(q[0], now)
    ensures forall i :: 0 <= i < |q| ==> !IsDue(q[i], now)
  {
  }

  lemma SortedTail(q: seq<Entry>)
    requires Sorted(q) && q != []
    ensures Sorted(q[1..])
  {
  }

  /** A stable partition of a queue in stamp order cuts it in two: what is due is a prefix, what stays is the rest. */
  lemma {:induction false} PartitionCuts(q: seq<Entry>, now: int) returns (cut: nat)
    requires Sorted(q)
    ensures cut <= |q| && Due(q, now) == q[..cut] && Keep(q, now) == q[cut..]
    ensures forall i :: 0 <= i < |q| ==> (IsDue(q[i], now) <==> i < cut)
  {
    cut := 0;
    if q == [] {
    } else {
      SortedTail(q);
      if IsDue(q[0], now) {
        cut := PartitionCuts(q[1..], now);
        hide Sorted, IsDue;
        cut := cut + 1;
        assert q[..cut] == [q[0]] + q[1..][..cut - 1] && q[cut..] == q[1..][cut - 1..];
        forall i | 0 <= i < |q| ensures IsDue(q[i], now) <==> i < cut {
          assert i > 0 ==> q[i] == q[1..][i - 1];
        }
      } else {
        YoungerThanFirst(q, now);
        hide Sorted, IsDue;
        NothingDue(q, now);
      }
    }
  }

  // ---- The steps

  /** The line FileLogSink appends for a record. */
  function FileLine(r: Record): string {
    "[" + r.timestamp + "] " + r.message + "\n"
  }

  predicate Enabled(s: Logger, a: Action) {
    match a
    case Enqueue(i) => i < |s.waiting|
    case Sample => s.flusher.Idle?
    case Collect => s.flusher.Sampled?
    case Deliver => s.flusher.Delivering? && s.flusher.due != []
    case Rest => s.flusher.Delivering? && s.flusher.due == []
    case _ => true
  }

  /** log_request_response: queue when a sink is installed, else rotate and append. */
  function LogRequestStep(s: Logger, record: Record, entry: string): Logger {
    if s.sink.Some? then s.(waiting := s.waiting + [record])
    else s.(files := Logged(s.files, entry), logged := s.logged + entry)
  }

  /** One turn of the delivery loop: the captured sink is written unless it is null. */
  function DeliverStep(s: Logger): Logger
    requires Enabled(s, Deliver)
  {
    var e := s.flusher.due[0];
    var rest := s.(flusher := Delivering(s.flusher.sample, s.flusher.due[1..]));
    match e.sink
    case None => rest
    case Some(sink) =>
      var done := rest.(written := s.written + [Written(sink, e.record, s.clock)]);
      if sink.kind == FileSink
      then done.(files := Appended(s.files, FileLine(e.record)), logged := s.logged + FileLine(e.record))
      else done
  }

  function Apply(s: Logger, a: Action): Logger
    requires Enabled(s, a)
  {
    match a
    case Tick(d) => s.(clock := s.clock + d)
    case Install(sink) => s.(sink := Some(sink))
    case LogRequest(r, entry) => LogRequestStep(s, r, entry)
    case Enqueue(i) =>
      var e := Entry(s.waiting[i], s.sink, s.clock);
      s.(waiting := s.waiting[..i] + s.waiting[i + 1..], queue := s.queue + [e], enqueued := s.enqueued + [e])
    case Sample => s.(flusher := Sampled(s.clock))
    case Collect =>
      s.(flusher := Delivering(s.flusher.now, Due(s.queue, s.flusher.now)), queue := Keep(s.queue, s.flusher.now))
    case Deliver => DeliverStep(s)
    case Rest => s.(flusher := Idle)
  }

  ghost predicate Executes(s: Logger, schedule: seq<Action>, t: Logger)
    decreases |schedule|
  {
    if schedule == [] then s == t
    else Enabled(s, schedule[0]) && Executes(Apply(s, schedule[0]), schedule[1..], t)
  }

  // ---- The invariant

  function InFlight(s: Logger): seq<Entry> {
    if s.flusher.Delivering? then s.flusher.due else []
  }

  /** Where the current batch ends in the history of queued entries, and the queue begins. */
  function Handed(s: Logger): nat {
    |s.written| + |InFlight(s)|
  }

  /** Written, in the current batch, or queued: everything ever queued, in order. */
  ghost predicate Conserved(s: Logger) {
    && Handed(s) <= |s.enqueued|
    && InFlight(s) == s.enqueued[|s.written|..Handed(s)]
    && s.queue == s.enqueued[Handed(s)..]
  }

  /** Write i went to the sink captured with the i-th queued record, no sooner than the interval allows. */
  ghost predicate Faithful(s: Logger) {
    && |s.written| <= |s.enqueued|
    && forall i :: 0 <= i < |s.written| ==>
         && Some(s.written[i].sink) == s.enqueued[i].sink
         && s.written[i].record == s.enqueued[i].record
         && s.written[i].at - s.enqueued[i].stamp >= FLUSH_INTERVAL
  }

  ghost predicate Stamped(s: Logger) {
    && Sorted(s.enqueued)
    && (forall i :: 0 <= i < |s.enqueued| ==> s.enqueued[i].stamp <= s.clock && s.enqueued[i].sink.Some?)
    && (s.sink == None ==> s.waiting == [] && s.enqueued == [])
  }

  ghost predicate Timely(s: Logger) {
    && (s.flusher.Sampled? ==> s.flusher.now <= s.clock)
    && (s.flusher.Delivering? ==>
          && s.flusher.sample <= s.clock
          && (forall i :: 0 <= i < |s.flusher.due| ==> IsDue(s.flusher.due[i], s.flusher.sample))
          && (forall i :: 0 <= i < |s.queue| ==> !IsDue(s.queue[i], s.flusher.sample)))
  }

  ghost predicate Inv(s: Logger) {
    Conserved(s) && Faithful(s) && Stamped(s) && Timely(s)
  }

  ghost predicate FilesKept(s: Logger) {
    WellRotated(s.files) && KeepsSuffix(s.files, s.logged)
  }

  lemma InitInv(clock: int)
    ensures Inv(Init(clock)) && FilesKept(Init(clock))
  {
  }

  lemma EnqueueInv(s: Logger, i: nat)
    requires Inv(s) && Enabled(s, Enqueue(i))
    ensures Inv(Apply(s, Enqueue(i)))
  {
    var t := Apply(s, Enqueue(i));
    var e := Entry(s.waiting[i], s.sink, s.clock);
    assert t.enqueued == s.enqueued + [e] && t.queue == s.queue + [e] && InFlight(t) == InFlight(s);
    assert t.written == s.written && t.clock == s.clock && t.sink == s.sink && t.flusher == s.flusher && t.sink.Some?;
    hide Apply;
    assert Conserved(t) by {
      hide Faithful, Stamped, Timely;
      AppendTail(s.enqueued, e, |s.written|, Handed(s));
    }
    assert Faithful(t) by { hide Conserved, Stamped, Timely; }
    assert Stamped(t) by { hide Conserved, Faithful, Timely; }
    assert Timely(t) by { hide Conserved, Faithful, Stamped; }
  }

  lemma AppendTail(es: seq<Entry>, e: Entry, i: nat, j: nat)
    requires i <= j <= |es|
    ensures (es + [e])[i..j] == es[i..j] && (es + [e])[j..] == es[j..] + [e]
  {
  }

  lemma SplitTail(es: seq<Entry>, i: nat, cut: nat)
    requires i + cut <= |es|
    ensures es[i..][..cut] == es[i..i + cut] && es[i..][cut..] == es[i + cut..]
  {
  }

  /** A pass hands the worker a prefix of the queue and leaves the rest. */
  lemma CollectCuts(s: Logger) returns (cut: nat)
    requires Enabled(s, Collect) && Sorted(s.queue)
    ensures var t := Apply(s, Collect);
            && cut <= |s.queue| && t.queue == s.queue[cut..]
            && t.flusher == Delivering(s.flusher.now, s.queue[..cut])
            && t.enqueued == s.enqueued && t.written == s.written && t.clock == s.clock
            && t.sink == s.sink && t.waiting == s.waiting
    ensures forall i :: 0 <= i < |s.queue| ==> (IsDue(s.queue[i], s.flusher.now) <==> i < cut)
  {
    cut := PartitionCuts(s.queue, s.flusher.now);
    hide Sorted, IsDue, Due, Keep;
  }

  lemma CollectConserved(s: Logger, t: Logger, cut: nat)
    requires Conserved(s) && InFlight(s) == [] && cut <= |s.queue|
    requires t.enqueued == s.enqueued && t.written == s.written
    requires t.flusher.Delivering? && t.flusher.due == s.queue[..cut] && t.queue == s.queue[cut..]
    ensures Conserved(t)
  {
    SplitTail(s.enqueued, |s.written|, cut);
  }

  lemma CollectTimely(q: seq<Entry>, cut: nat, now: int)
    requires cut <= |q| && forall i :: 0 <= i < |q| ==> (IsDue(q[i], now) <==> i < cut)
    ensures forall i :: 0 <= i < cut ==> IsDue(q[..cut][i], now)
    ensures forall i :: 0 <= i < |q| - cut ==> !IsDue(q[cut..][i], now)
  {
    hide IsDue;
  }

  lemma CollectedInv(s: Logger, t: Logger, cut: nat)
    requires Inv(s) && s.flusher.Sampled?
    requires cut <= |s.queue| && t.queue == s.queue[cut..]
    requires t.flusher == Delivering(s.flusher.now, s.queue[..cut])
    requires t.enqueued == s.enqueued && t.written == s.written && t.clock == s.clock
    requires t.sink == s.sink && t.waiting == s.waiting
    requires forall i :: 0 <= i < |s.queue| ==> (IsDue(s.queue[i], s.flusher.now) <==> i < cut)
    ensures Inv(t)
  {
    hide Sorted, IsDue;
    assert Conserved(t) by {
      hide Faithful, Stamped, Timely;
      CollectConserved(s, t, cut);
    }
    assert Faithful(t) by { hide Conserved, Stamped, Timely; }
    assert Stamped(t) by { hide Conserved, Faithful, Timely; }
    assert Timely(t) by {
      CollectTimely(s.queue, cut, s.flusher.now);
      hide Conserved, Faithful, Stamped;
    }
  }

  lemma CollectInv(s: Logger)
    requires Inv(s) && Enabled(s, Collect)
    ensures Inv(Apply(s, Collect))
  {
    QueueSorted(s);
    var cut := CollectCuts(s);
    hide *;
    CollectedInv(s, Apply(s, Collect), cut);
  }

  lemma QueueSorted(s: Logger)
    requires Conserved(s) && Stamped(s)
    ensures Sorted(s.queue)
  {
  }

  /** Delivering moves the batch's first entry from in flight to written. */
  lemma DeliverMoves(s: Logger)
    requires Inv(s) && Enabled(s, Deliver)
    ensures var t := Apply(s, Deliver);
            var e := s.flusher.due[0];
            && |s.written| < |s.enqueued| && e == s.enqueued[|s.written|] && e.sink.Some?
            && IsDue(e, s.clock)
            && t.written == s.written + [Written(e.sink.value, e.record, s.clock)]
            && t.flusher == Delivering(s.flusher.sample, s.flusher.due[1..])
            && t.queue == s.queue && t.enqueued == s.enqueued && t.clock == s.clock
            && t.sink == s.sink && t.waiting == s.waiting
  {
    hide FileLine, Appended, Faithful;
  }

  lemma DeliverInv(s: Logger)
    requires Inv(s) && Enabled(s, Deliver)
    ensures Inv(Apply(s, Deliver))
  {
    DeliverMoves(s);
    hide Apply;
    var t := Apply(s, Deliver);
    assert Conserved(t) by { hide Faithful, Stamped, Timely; }
    assert Faithful(t) by { hide Conserved, Stamped, Timely; }
    assert Stamped(t) by { hide Conserved, Faithful, Timely; }
    assert Timely(t) by { hide Conserved, Faithful, Stamped; }
  }

  lemma QuietStamped(s: Logger, t: Logger)
    requires Stamped(s) && t.enqueued == s.enqueued && t.clock >= s.clock
    requires t.sink == None ==> s.sink == None && t.waiting == s.waiting
    ensures Stamped(t)
  {
    hide Sorted;
  }

  lemma QuietTimely(s: Logger, t: Logger)
    requires Timely(s) && t.queue == s.queue && t.clock >= s.clock
    requires t.flusher == s.flusher || t.flusher == Idle || t.flusher == Sampled(s.clock)
    ensures Timely(t)
  {
    hide IsDue;
  }

  /** What keeps the invariant when neither the queue, the batch nor the histories change. */
  lemma QuietInv(s: Logger, t: Logger)
    requires Inv(s) && t.queue == s.queue && t.written == s.written && t.enqueued == s.enqueued
    requires InFlight(t) == InFlight(s)
    requires t.flusher == s.flusher || t.flusher == Idle || t.flusher == Sampled(s.clock)
    requires t.clock >= s.clock && (t.sink == None ==> s.sink == None && t.waiting == s.waiting)
    ensures Inv(t)
  {
    QuietStamped(s, t);
    QuietTimely(s, t);
    hide Stamped, Timely, InFlight;
    assert Conserved(t) by { hide Faithful; }
    hide Conserved;
  }

  lemma OtherInv(s: Logger, a: Action)
    requires Inv(s) && Enabled(s, a) && !a.Enqueue? && !a.Collect? && !a.Deliver?
    ensures Inv(Apply(s, a))
  {
    hide FileLine, Appended, Logged, Due, Keep, Inv;
    QuietInv(s, Apply(s, a));
  }

  lemma StepInv(s: Logger, a: Action)
    requires Inv(s) && Enabled(s, a)
    ensures Inv(Apply(s, a))
  {
    hide Inv, Apply;
    match a
    case Enqueue(i) => EnqueueInv(s, i);
    case Collect => CollectInv(s);
    case Deliver => DeliverInv(s);
    case _ => OtherInv(s, a);
  }

  lemma {:induction false} RunInv(s: Logger, schedule: seq<Action>, t: Logger)
    requires Inv(s) && Executes(s, schedule, t)
    ensures Inv(t)
    decreases |schedule|
  {
    if schedule == [] {
    } else {
      StepInv(s, schedule[0]);
      RunInv(Apply(s, schedule[0]), schedule[1..], t);
    }
  }

  lemma StepFilesKept(s: Logger, a: Action)
    requires FilesKept(s) && Enabled(s, a)
    ensures FilesKept(Apply(s, a))
  {
    hide WellRotated, KeepsSuffix, FileLine, Logged, Appended;
    match a
    case LogRequest(_, entry) => LoggedKeepsSuffix(s.files, s.logged, entry);
    case Deliver => AppendedKeepsSuffix(s.files, s.logged, FileLine(s.flusher.due[0].record));
    case _ =>
  }

  lemma {:induction false} RunFilesKept(s: Logger, schedule: seq<Action>, t: Logger)
    requires FilesKept(s) && Executes(s, schedule, t)
    ensures FilesKept(t)
    decreases |schedule|
  {
    hide FilesKept;
    if schedule == [] {
    } else {
      StepFilesKept(s, schedule[0]);
      RunFilesKept(Apply(s, schedule[0]), schedule[1..], t);
    }
  }

  // ---- Theorems over every run

  function Records(es: seq<Entry>): seq<Record> {
    seq(|es|, i requires 0 <= i < |es| => es[i].record)
  }

  function WrittenRecords(ws: seq<Written>): seq<Record> {
    seq(|ws|, i requires 0 <= i < |ws| => ws[i].record)
  }

  /** Conservation and order: nothing queued is lost, duplicated, reordered or dropped for want of a sink. */
  lemma NothingLost(clock: int, schedule: seq<Action>, s: Logger)
    requires Executes(Init(clock), schedule, s)
    ensures WrittenRecords(s.written) + Records(InFlight(s)) + Records(s.queue) == Records(s.enqueued)
  {
    RunInv(Init(clock), schedule, s);
  }

  /** Every write goes to the sink captured at enqueue and is at least 250 ms younger than the stamp. */
  lemma WrittenAsCaptured(clock: int, schedule: seq<Action>, s: Logger, i: nat)
    requires Executes(Init(clock), schedule, s) && i < |s.written|
    ensures i < |s.enqueued| && s.enqueued[i].sink == Some(s.written[i].sink)
    ensures s.written[i].record == s.enqueued[i].record
    ensures s.written[i].at >= s.enqueued[i].stamp + 250_000_000
  {
    RunInv(Init(clock), schedule, s);
  }

  /** A pass leaves behind only entries younger than the interval at its sample, and takes only older ones. */
  lemma PassIsExact(clock: int, schedule: seq<Action>, s: Logger)
    requires Executes(Init(clock), schedule, s) && s.flusher.Delivering?
    ensures forall i :: 0 <= i < |s.queue| ==> s.flusher.sample < s.queue[i].stamp + 250_000_000
    ensures forall i :: 0 <= i < |s.flusher.due| ==> s.flusher.sample >= s.flusher.due[i].stamp + 250_000_000
  {
    RunInv(Init(clock), schedule, s);
  }

  /** No queued record ever has a null sink, so the worker's null test never drops one. */
  lemma NullTestNeverDrops(clock: int, schedule: seq<Action>, s: Logger)
    requires Executes(Init(clock), schedule, s)
    ensures forall i :: 0 <= i < |s.queue| ==> s.queue[i].sink.Some?
    ensures Enabled(s, Deliver) ==> |Apply(s, Deliver).written| == |s.written| + 1
  {
    RunInv(Init(clock), schedule, s);
    if Enabled(s, Deliver) {
      assert s.flusher.due[0] == s.enqueued[|s.written|];
    }
  }

  /** Rotation keeps a suffix: the files on disk are the end of everything logged, with no gap and full copies. */
  lemma RotationKeepsSuffix(clock: int, schedule: seq<Action>, s: Logger)
    requires Executes(Init(clock), schedule, s)
    ensures IsSuffix(Retained(s.files), s.logged) && WellRotated(s.files)
    ensures Retained(s.files) == s.logged || |Retained(s.files)| >= 3 * 1_048_576
  {
    RunFilesKept(Init(clock), schedule, s);
    RetainsThreeCopies(s.files, s.logged);
  }

  /** The last entry of a run's synchronous log calls. */
  function Latest(schedule: seq<Action>): string {
    if schedule == [] then ""
    else if schedule[|schedule| - 1].LogRequest? then schedule[|schedule| - 1].entry
    else Latest(schedule[..|schedule| - 1])
  }

  lemma {:induction false} ExecutesSnoc(s: Logger, schedule: seq<Action>, t: Logger) returns (mid: Logger)
    requires Executes(s, schedule, t) && schedule != []
    ensures Executes(s, schedule[..|schedule| - 1], mid)
    ensures Enabled(mid, schedule[|schedule| - 1]) && Apply(mid, schedule[|schedule| - 1]) == t
    decreases |schedule|
  {
    if |schedule| == 1 {
      mid := s;
    } else {
      var first := Apply(s, schedule[0]);
      mid := ExecutesSnoc(first, schedule[1..], t);
      var front := schedule[..|schedule| - 1];
      assert front[1..] == schedule[1..][..|schedule| - 2];
      assert schedule[1..][|schedule| - 2] == schedule[|schedule| - 1];
    }
  }

  /** Until a sink is installed, the live log stays under the threshold plus its latest entry. */
  lemma {:induction false} LiveLogBounded(clock: int, schedule: seq<Action>, s: Logger)
    requires Executes(Init(clock), schedule, s) && s.sink == None
    ensures |Content(s.files, LIVE)| < 1_048_576 + |Latest(schedule)|
    decreases |schedule|
  {
    if schedule == [] {
    } else {
      var mid := ExecutesSnoc(Init(clock), schedule, s);
      var a := schedule[|schedule| - 1];
      if a.LogRequest? {
        LoggedBounded(mid.files, a.entry);
      } else {
        LiveLogBounded(clock, schedule[..|schedule| - 1], mid);
        NothingQueued(clock, schedule[..|schedule| - 1], mid);
      }
    }
  }

  lemma NothingQueued(clock: int, schedule: seq<Action>, s: Logger)
    requires Executes(Init(clock), schedule, s) && s.sink == None
    ensures InFlight(s) == [] && s.queue == []
  {
    RunInv(Init(clock), schedule, s);
  }

  // ---- Which sink a record is captured with

  /** The sink installed last in a schedule. */
  function LastInstalled(schedule: seq<Action>): Option<Sink> {
    if schedule == [] then None
    else if schedule[|schedule| - 1].Install? then Some(schedule[|schedule| - 1].newSink)
    else LastInstalled(schedule[..|schedule| - 1])
  }

  /** For each enqueue of a schedule, in order, the sink installed at that moment. */
  function Captures(schedule: seq<Action>): seq<Option<Sink>> {
    if schedule == [] then []
    else
      var front := schedule[..|schedule| - 1];
      Captures(front) + if schedule[|schedule| - 1].Enqueue? then [LastInstalled(front)] else []
  }

  lemma {:induction false} CapturesFollow(clock: int, schedule: seq<Action>, s: Logger)
    requires Executes(Init(clock), schedule, s)
    ensures s.sink == LastInstalled(schedule)
    ensures |s.enqueued| == |Captures(schedule)|
    ensures forall i :: 0 <= i < |s.enqueued| ==> s.enqueued[i].sink == Captures(schedule)[i]
    decreases |schedule|
  {
    if schedule == [] {
    } else {
      var mid := ExecutesSnoc(Init(clock), schedule, s);
      CapturesFollow(clock, schedule[..|schedule| - 1], mid);
    }
  }

  /** The i-th write goes to the sink installed when the i-th record was queued, whatever was installed since. */
  lemma WrittenToInstalledSink(clock: int, schedule: seq<Action>, s: Logger, i: nat)
    requires Executes(Init(clock), schedule, s) && i < |s.written|
    ensures i < |Captures(schedule)| && Captures(schedule)[i] == Some(s.written[i].sink)
  {
    WrittenAsCaptured(clock, schedule, s, i);
    CapturesFollow(clock, schedule, s);
  }

  // ---- What the schedule alone says

  function ClockAt(clock: int, schedule: seq<Action>): int {
    if schedule == [] then clock
    else
      var last := schedule[|schedule| - 1];
      ClockAt(clock, schedule[..|schedule| - 1]) + if last.Tick? then last.delta else 0
  }

  /** The clock at each enqueue of a schedule, and at each delivery. */
  function Stamps(clock: int, schedule: seq<Action>): seq<int> {
    if schedule == [] then []
    else
      var front := schedule[..|schedule| - 1];
      Stamps(clock, front) + if schedule[|schedule| - 1].Enqueue? then [ClockAt(clock, front)] else []
  }

  function WriteTimes(clock: int, schedule: seq<Action>): seq<int> {
    if schedule == [] then []
    else
      var front := schedule[..|schedule| - 1];
      WriteTimes(clock, front) + if schedule[|schedule| - 1].Deliver? then [ClockAt(clock, front)] else []
  }

  /** The clock at the last sample of a schedule. */
  function LastSample(clock: int, schedule: seq<Action>): int {
    if schedule == [] then clock
    else
      var front := schedule[..|schedule| - 1];
      if schedule[|schedule| - 1].Sample? then ClockAt(clock, front) else LastSample(clock, front)
  }

  lemma StepTimes(s: Logger, a: Action)
    requires Inv(s) && Enabled(s, a)
    ensures var t := Apply(s, a);
            && t.clock == s.clock + (if a.Tick? then a.delta else 0)
            && |t.enqueued| == |s.enqueued| + (if a.Enqueue? then 1 else 0)
            && s.enqueued <= t.enqueued
            && (a.Enqueue? ==> t.enqueued[|s.enqueued|].stamp == s.clock)
            && |t.written| == |s.written| + (if a.Deliver? then 1 else 0)
            && s.written <= t.written
            && (a.Deliver? ==> t.written[|s.written|].at == s.clock)
  {
    if a.Deliver? {
      DeliverMoves(s);
    }
    hide Inv, Due, Keep, FileLine, Appended, Logged;
  }

  lemma StepSample(s: Logger, a: Action)
    requires Enabled(s, a)
    ensures var t := Apply(s, a);
            && (t.flusher.Sampled? ==> t.flusher.now == if a.Sample? then s.clock else SampleOf(s))
            && (t.flusher.Delivering? ==> t.flusher.sample == SampleOf(s))
  {
    hide Due, Keep, FileLine, Appended, Logged;
  }

  function SampleOf(s: Logger): int {
    match s.flusher
    case Idle => 0
    case Sampled(now) => now
    case Delivering(sample, _) => sample
  }

  lemma {:induction false} ClockFollows(clock: int, schedule: seq<Action>, s: Logger)
    requires Executes(Init(clock), schedule, s)
    ensures s.clock == ClockAt(clock, schedule)
    decreases |schedule|
  {
    if schedule == [] {
    } else {
      var front := schedule[..|schedule| - 1];
      var mid := ExecutesSnoc(Init(clock), schedule, s);
      ClockFollows(clock, front, mid);
      RunInv(Init(clock), front, mid);
      StepTimes(mid, schedule[|schedule| - 1]);
      hide Inv, Apply, Enabled, Executes, Init;
    }
  }

  ghost predicate StampedAt(es: seq<Entry>, times: seq<int>) {
    |es| == |times| && forall i :: 0 <= i < |es| ==> es[i].stamp == times[i]
  }

  ghost predicate WrittenAt(ws: seq<Written>, times: seq<int>) {
    |ws| == |times| && forall i :: 0 <= i < |ws| ==> ws[i].at == times[i]
  }

  lemma StampedAtSnoc(es: seq<Entry>, fs: seq<Entry>, times: seq<int>, now: int)
    requires StampedAt(es, times) && es <= fs && |fs| == |es| + 1 && fs[|es|].stamp == now
    ensures StampedAt(fs, times + [now])
  {
  }

  lemma WrittenAtSnoc(ws: seq<Written>, vs: seq<Written>, times: seq<int>, now: int)
    requires WrittenAt(ws, times) && ws <= vs && |vs| == |ws| + 1 && vs[|ws|].at == now
    ensures WrittenAt(vs, times + [now])
  {
  }

  /** Every stamp is the clock at its enqueue. */
  lemma {:induction false} StampsFollow(clock: int, schedule: seq<Action>, s: Logger)
    requires Executes(Init(clock), schedule, s)
    ensures StampedAt(s.enqueued, Stamps(clock, schedule))
    decreases |schedule|
  {
    if schedule == [] {
    } else {
      var front, a := schedule[..|schedule| - 1], schedule[|schedule| - 1];
      var mid := ExecutesSnoc(Init(clock), schedule, s);
      StampsFollow(clock, front, mid);
      ClockFollows(clock, front, mid);
      RunInv(Init(clock), front, mid);
      StepTimes(mid, a);
      hide Inv, Apply, Enabled, Executes, Init, StampedAt, ClockAt;
      if a.Enqueue? {
        StampedAtSnoc(mid.enqueued, s.enqueued, Stamps(clock, front), mid.clock);
      } else {
        assert s.enqueued == mid.enqueued;
      }
    }
  }

  /** Every delivery writes once, at its own time. */
  lemma {:induction false} WritesFollow(clock: int, schedule: seq<Action>, s: Logger)
    requires Executes(Init(clock), schedule, s)
    ensures WrittenAt(s.written, WriteTimes(clock, schedule))
    decreases |schedule|
  {
    if schedule == [] {
    } else {
      var front, a := schedule[..|schedule| - 1], schedule[|schedule| - 1];
      var mid := ExecutesSnoc(Init(clock), schedule, s);
      WritesFollow(clock, front, mid);
      ClockFollows(clock, front, mid);
      RunInv(Init(clock), front, mid);
      StepTimes(mid, a);
      hide Inv, Apply, Enabled, Executes, Init, WrittenAt, ClockAt;
      if a.Deliver? {
        WrittenAtSnoc(mid.written, s.written, WriteTimes(clock, front), mid.clock);
      } else {
        assert s.written == mid.written;
      }
    }
  }

  /** A pass works with the clock at its own sample. */
  lemma {:induction false} SampleFollows(clock: int, schedule: seq<Action>, s: Logger)
    requires Executes(Init(clock), schedule, s)
    ensures !s.flusher.Idle? ==> SampleOf(s) == LastSample(clock, schedule)
    decreases |schedule|
  {
    if schedule == [] {
    } else {
      var front := schedule[..|schedule| - 1];
      var mid := ExecutesSnoc(Init(clock), schedule, s);
      SampleFollows(clock, front, mid);
      ClockFollows(clock, front, mid);
      StepSample(mid, schedule[|schedule| - 1]);
      FlusherSteps(mid, schedule[|schedule| - 1]);
      hide Apply, Executes, Init, Enabled;
    }
  }

  lemma FlusherSteps(s: Logger, a: Action)
    requires Enabled(s, a)
    ensures s.flusher.Idle? && !Apply(s, a).flusher.Idle? ==> a.Sample?
    ensures a.Sample? ==> Apply(s, a).flusher.Sampled?
  {
    hide Due, Keep, FileLine, Appended, Logged;
  }

  /** No record is delivered sooner than 250 ms after its enqueue, by the clock the schedule ticks. */
  lemma DeliveredOnTime(clock: int, schedule: seq<Action>, s: Logger, i: nat)
    requires Executes(Init(clock), schedule, s) && i < |s.written|
    ensures i < |WriteTimes(clock, schedule)| && i < |Stamps(clock, schedule)|
    ensures WriteTimes(clock, schedule)[i] >= Stamps(clock, schedule)[i] + 250_000_000
  {
    hide Executes;
    StampsFollow(clock, schedule, s);
    WritesFollow(clock, schedule, s);
    WrittenAsCaptured(clock, schedule, s, i);
  }

  /** The records of the log calls that found a sink installed. */
  function QueuedCalls(schedule: seq<Action>): seq<Record> {
    if schedule == [] then []
    else
      var front, last := schedule[..|schedule| - 1], schedule[|schedule| - 1];
      QueuedCalls(front) + if last.LogRequest? && LastInstalled(front).Some? then [last.record] else []
  }

  lemma RemoveAt(w: seq<Record>, i: nat)
    requires i < |w|
    ensures multiset(w[..i] + w[i + 1..]) + multiset{w[i]} == multiset(w)
  {
    assert w == w[..i] + [w[i]] + w[i + 1..];
  }

  lemma StepRecords(s: Logger, a: Action)
    requires Enabled(s, a)
    ensures var t := Apply(s, a);
            multiset(Records(t.enqueued)) + multiset(t.waiting) ==
            multiset(Records(s.enqueued)) + multiset(s.waiting)
            + if a.LogRequest? && s.sink.Some? then multiset{a.record} else multiset{}
  {
    hide Due, Keep, FileLine, Appended, Logged;
    if a.Enqueue? {
      RemoveAt(s.waiting, a.index);
      var e := Entry(s.waiting[a.index], s.sink, s.clock);
      assert Records(s.enqueued + [e]) == Records(s.enqueued) + [e.record];
    }
  }

  /**
   Every log call that finds a sink hands its record on, once: the records queued so far and
   those on their way to the queue are exactly those of these calls.
   */
  lemma {:induction false} EveryCallQueued(clock: int, schedule: seq<Action>, s: Logger)
    requires Executes(Init(clock), schedule, s)
    ensures multiset(Records(s.enqueued)) + multiset(s.waiting) == multiset(QueuedCalls(schedule))
    decreases |schedule|
  {
    if schedule == [] {
    } else {
      var front := schedule[..|schedule| - 1];
      var mid := ExecutesSnoc(Init(clock), schedule, s);
      EveryCallQueued(clock, front, mid);
      CapturesFollow(clock, front, mid);
      StepRecords(mid, schedule[|schedule| - 1]);
      hide Apply, Executes, Init, Enabled, Records, LastInstalled;
    }
  }

  /**
   The bytes logged by a schedule whose k-th delivery was the k-th write: the entry of each log
   call made before a sink was installed, and the line of each write to a file sink.
   */
  function LoggedText(schedule: seq<Action>, written: seq<Written>): string {
    if schedule == [] then ""
    else
      var front, last := schedule[..|schedule| - 1], schedule[|schedule| - 1];
      LoggedText(front, written) +
        if last.LogRequest? && LastInstalled(front).None? then last.entry
        else if last.Deliver? then WriteLine(written, Deliveries(front))
        else ""
  }

  function Deliveries(schedule: seq<Action>): nat {
    if schedule == [] then 0
    else Deliveries(schedule[..|schedule| - 1]) + if schedule[|schedule| - 1].Deliver? then 1 else 0
  }

  function WriteLine(written: seq<Written>, k: nat): string {
    if k < |written| && written[k].sink.kind == FileSink
    then "[" + written[k].record.timestamp + "] " + written[k].record.message + "\n"
    else ""
  }

  lemma {:induction false} LoggedTextPrefix(schedule: seq<Action>, w: seq<Written>, v: seq<Written>)
    requires w <= v && Deliveries(schedule) <= |w|
    ensures LoggedText(schedule, w) == LoggedText(schedule, v)
    decreases |schedule|
  {
    if schedule == [] {
    } else {
      LoggedTextPrefix(schedule[..|schedule| - 1], w, v);
    }
  }

  lemma StepLogged(s: Logger, a: Action)
    requires Inv(s) && Enabled(s, a)
    ensures var t := Apply(s, a);
            t.logged == s.logged +
              if a.LogRequest? && s.sink.None? then a.entry
              else if a.Deliver? then WriteLine(t.written, |s.written|)
              else ""
  {
    if a.Deliver? {
      DeliverMoves(s);
    }
    hide Inv, Due, Keep, Appended, Logged;
  }

  /** Every byte logged is accounted for by the schedule: nothing a log call or a file write produces is left out. */
  lemma {:induction false} EveryByteLogged(clock: int, schedule: seq<Action>, s: Logger)
    requires Executes(Init(clock), schedule, s)
    ensures s.logged == LoggedText(schedule, s.written) && |s.written| == Deliveries(schedule)
    decreases |schedule|
  {
    if schedule == [] {
    } else {
      var front := schedule[..|schedule| - 1];
      var mid := ExecutesSnoc(Init(clock), schedule, s);
      EveryByteLogged(clock, front, mid);
      RunInv(Init(clock), front, mid);
      CapturesFollow(clock, front, mid);
      StepLogged(mid, schedule[|schedule| - 1]);
      StepTimes(mid, schedule[|schedule| - 1]);
      LoggedTextPrefix(front, mid.written, s.written);
      hide Inv, Apply, Executes, Init, Enabled, LastInstalled, WriteLine;
    }
  }

  // ---- A whole pass

  lemma {:induction false} DeliverAll(s: Logger) returns (schedule: seq<Action>, t: Logger)
    requires Inv(s) && s.flusher.Delivering?
    ensures Executes(s, schedule, t) && Inv(t) && t.flusher == Idle
    ensures |t.written| == |s.written| + |s.flusher.due| && s.written <= t.written
    ensures t.queue == s.queue && t.enqueued == s.enqueued && t.clock == s.clock
    decreases |s.flusher.due|
  {
    if s.flusher.due == [] {
      t := Apply(s, Rest);
      OtherInv(s, Rest);
      schedule := [Rest];
      assert Executes(t, [], t) && schedule[1..] == [];
    } else {
      var next := Apply(s, Deliver);
      DeliverMoves(s);
      DeliverInv(s);
      hide Inv, Apply;
      var rest;
      rest, t := DeliverAll(next);
      schedule := [Deliver] + rest;
      assert schedule[1..] == rest;
    }
  }

  /**
   The worker left alone completes a pass from any idle state: it writes exactly the records
   that are due at its sample, in order, leaves the younger ones queued, and is idle again.
   */
  lemma PassCompletes(s: Logger) returns (schedule: seq<Action>, t: Logger, cut: nat)
    requires Inv(s) && s.flusher.Idle?
    ensures Executes(s, schedule, t) && Inv(t) && t.flusher == Idle
    ensures cut <= |s.queue| && t.queue == s.queue[cut..] && |t.written| == |s.written| + cut
    ensures forall i :: 0 <= i < |s.queue| ==> (s.clock - s.queue[i].stamp >= 250_000_000 <==> i < cut)
  {
    var sampled := Apply(s, Sample);
    OtherInv(s, Sample);
    QueueSorted(sampled);
    cut := CollectCuts(sampled);
    var collected := Apply(sampled, Collect);
    CollectInv(sampled);
    assert sampled.queue == s.queue && sampled.flusher == Sampled(s.clock) && sampled.written == s.written;
    assert Enabled(s, Sample) && Enabled(sampled, Collect);
    hide Inv, Apply, Sorted;
    var rest;
    rest, t := DeliverAll(collected);
    var tail := [Collect] + rest;
    schedule := [Sample] + tail;
    assert tail[1..] == rest && schedule[1..] == tail;
    assert Executes(sampled, tail, t);
  }

  /** Only a synchronous log call rotates: every other step leaves the numbered copies alone. */
  lemma OnlySyncRotates(s: Logger, a: Action, n: nat)
    requires Enabled(s, a) && (a.LogRequest? ==> s.sink.Some?) && n >= 1
    ensures n in Apply(s, a).files <==> n in s.files
    ensures Content(Apply(s, a).files, n) == Content(s.files, n)
  {
    hide Due, Keep, FileLine;
  }

  // ---- The message of a queued record

  /** The request up to its first line feed, without a carriage return before it. */
  function FirstLine(request: string): (r: string)
    ensures '\n' !in r && r <= request
    ensures var rest := request[|r|..];
            && (rest == "" || rest == "\r" || rest[0] == '\n' || (|rest| > 1 && rest[..2] == "\r\n"))
            && (rest == "" || rest[0] == '\n' ==> r == "" || r[|r| - 1] != '\r')
  {
    var eol := FindChar(request, '\n', 0);
    var line := if eol.Some? then request[..eol.value] else request;
    if line != "" && line[|line| - 1] == '\r' then line[..|line| - 1] else line
  }

  /** The pipeline's globals and its worker, updated in place. */
  class Pipeline {
    var clock: int
    var sink: Option<Sink>
    var queue: seq<Entry>
    var flusher: Flusher
    var waiting: seq<Record>
    const directory: LogDirectory
    ghost var enqueued: seq<Entry>
    ghost var written: seq<Written>
    ghost var logged: string

    ghost function State(): Logger
      reads this, directory
    {
      Logger(clock, sink, queue, flusher, waiting, directory.files, enqueued, written, logged)
    }

    constructor (now: int)
      ensures State() == Init(now)
    {
      clock, sink, queue, flusher, waiting := now, None, [], Idle, [];
      directory := new LogDirectory();
      enqueued, written, logged := [], [], "";
    }

    /** handlers::logging: install a new file or syslog sink; any other output changes nothing. */
    method SetOutput(output: string, id: nat) returns (ok: bool)
      modifies this`sink
      ensures ok <==> output == "file" || output == "syslog"
      ensures var kind := if output == "file" then FileSink else SyslogSink;
              State() == if ok then Apply(old(State()), Install(Sink(id, kind))) else old(State())
    {
      ok := true;
      if output == "file" {
        sink := Some(Sink(id, FileSink));
      } else if output == "syslog" {
        sink := Some(Sink(id, SyslogSink));
      } else {
        ok := false;
      }
    }

    /** log_request_response, with the formatted synchronous entry as a parameter. */
    method LogRequestResponse(timestamp: string, request: string, entry: string)
      requires forall n :: n in directory.files ==> n <= ROTATION_KEEP
      modifies this`waiting, this`logged, directory
      ensures State() == Apply(old(State()), LogRequest(Record(timestamp, FirstLine(request)), entry))
    {
      hide Appended, Rotated;
      if sink.Some? {
        var message := request;
        var eol := FindChar(message, '\n', 0);
        if eol.Some? {
          message := message[..eol.value];
        }
        if message != "" && message[|message| - 1] == '\r' {
          message := message[..|message| - 1];
        }
        waiting := waiting + [Record(timestamp, message)];
        return;
      }
      directory.RotateLogIfNeeded();
      directory.Append(entry);
      logged := logged + entry;
    }

    /** enqueue_log_record, for the request thread at position i of those past the sink test. */
    method EnqueueLogRecord(i: nat)
      requires i < |waiting|
      modifies this`waiting, this`queue, this`enqueued
      ensures State() == Apply(old(State()), Enqueue(i))
    {
      var e := Entry(waiting[i], sink, clock);
      queue := queue + [e];
      enqueued := enqueued + [e];
      waiting := waiting[..i] + waiting[i + 1..];
    }

    /** The worker's critical section: split the queue into what is due and what stays. */
    method CollectDue()
      requires flusher.Sampled?
      modifies this`queue, this`flusher
      ensures State() == Apply(old(State()), Collect)
    {
      var now := flusher.now;
      var due, keep := [], [];
      for i := 0 to |queue|
        invariant unchanged(this)
        invariant due == Due(queue[..i], now) && keep == Keep(queue[..i], now)
      {
        assert queue[..i + 1] == queue[..i] + [queue[i]];
        DueAppend(queue[..i], queue[i], now);
        KeepAppend(queue[..i], queue[i], now);
        if now - queue[i].stamp >= FLUSH_INTERVAL {
          due := due + [queue[i]];
        } else {
          keep := keep + [queue[i]];
        }
      }
      assert queue[..|queue|] == queue;
      queue, flusher := keep, Delivering(now, due);
    }

    /** One turn of the worker's delivery loop. */
    method DeliverNext()
      requires flusher.Delivering? && flusher.due != []
      modifies this`flusher, this`written, this`logged, directory
      ensures State() == Apply(old(State()), Deliver)
    {
      hide FileLine, Appended;
      var e := flusher.due[0];
      flusher := Delivering(flusher.sample, flusher.due[1..]);
      if e.sink.Some? {
        written := written + [Written(e.sink.value, e.record, clock)];
        if e.sink.value.kind == FileSink {
          directory.Append(FileLine(e.record));
          logged := logged + FileLine(e.record);
        }
      }
    }
  }
}
