/**
 The v1 ingester: ParallelForEach2 feeds a stream through a channel to workers,
 each with its own batching writer, and Ingest flushes the writers in turn once
 every goroutine has returned without an error.
 */
module Ingest {
  import opened Common
  import opened BatchWriter

  /** An element of the stream: a value, or an error in its place. */
  datatype Entry<T> = Entry(value: T, failed: bool)

  datatype Config<T> = Config(items: seq<Entry<T>>, workers: nat, capacity: nat, batchSize: nat)
  {
    ghost predicate Valid() { workers >= 1 && batchSize >= 1 }
  }

  datatype Failure = ProducerCanceled | StreamFailed | AppendFailed | FlushFailed

  datatype Producer =
    | Offering
    | ProducerReturned(result: Option<Failure>)
    | ProducerExited(result: Option<Failure>)

  datatype Activity =
    | Idle
    | Busy
    | Returned(result: Option<Failure>)
    | Exited(result: Option<Failure>)

  /** held is the entry being handled; a worker that fails on it keeps it. */
  datatype Worker<T> = Worker(activity: Activity, held: seq<Entry<T>>, writer: Writer<Entry<T>>)

  datatype Phase = Running | Flushing(next: nat) | Done(result: Option<Failure>)

  datatype State<T> = State(
    pos: nat,                       // entries handed to the channel or to a worker
    producer: Producer,
    chan: seq<Entry<T>>,
    workers: seq<Worker<T>>,
    table: seq<Entry<T>>,           // the rows the server received
    parentDone: bool,
    first: Option<Failure>,         // the errgroup's first error
    phase: Phase)
  {
    predicate Canceled() { parentDone || first.Some? }

    predicate Closed() { !producer.Offering? }

    predicate AllExited() {
      producer.ProducerExited? && forall i :: 0 <= i < |workers| ==> workers[i].activity.Exited?
    }
  }

  datatype Action =
    | Send | HandOff(w: nat) | SendCanceled | EndOfStream
    | Receive(w: nat) | Drained(w: nat) | Handle(w: nat, outcome: Outcome)
    | ReportProducer | ReportWorker(w: nat) | CancelParent
    | Wait | FlushNext(sends: bool) | Finish

  function NewWorker<T>(): Worker<T> {
    Worker(Idle, [], Writer(None, 0))
  }

  function Init<T>(c: Config<T>): State<T> {
    State(0, Offering, [], seq(c.workers, i => NewWorker()), [], false, None, Running)
  }

  predicate WorkerIs<T>(s: State<T>, w: nat, a: Activity) {
    w < |s.workers| && s.workers[w].activity == a
  }

  predicate Enabled<T>(c: Config<T>, s: State<T>, a: Action) {
    match a
    case Send => s.producer.Offering? && s.pos < |c.items| && |s.chan| < c.capacity
    case HandOff(w) => s.producer.Offering? && s.pos < |c.items| && c.capacity == 0 && WorkerIs(s, w, Idle)
    case SendCanceled => s.producer.Offering? && s.pos < |c.items| && s.Canceled()
    case EndOfStream => s.producer.Offering? && s.pos == |c.items|
    case Receive(w) => WorkerIs(s, w, Idle) && s.chan != []
    case Drained(w) => WorkerIs(s, w, Idle) && s.chan == [] && s.Closed()
    case Handle(w, _) => WorkerIs(s, w, Busy) && s.workers[w].held != []
    case ReportProducer => s.producer.ProducerReturned?
    case ReportWorker(w) => w < |s.workers| && s.workers[w].activity.Returned?
    case CancelParent => !s.parentDone
    case Wait => s.phase.Running? && s.AllExited()
    case FlushNext(_) => s.phase.Flushing? && s.phase.next < |s.workers|
    case Finish => s.phase.Flushing? && s.phase.next == |s.workers|
  }

  function SetWorker<T>(s: State<T>, w: nat, worker: Worker<T>): State<T>
    requires w < |s.workers|
  {
    s.(workers := s.workers[w := worker])
  }

  /** The callback given to ParallelForEach2, and its loop around it. */
  function HandleEntry<T>(c: Config<T>, worker: Worker<T>, o: Outcome): (Worker<T>, seq<Entry<T>>)
    requires worker.held != []
  {
    var entry := worker.held[0];
    if entry.failed then (worker.(activity := Returned(Some(StreamFailed))), [])
    else
      var e := AppendOf(worker.writer, entry, c.batchSize, o);
      (Worker(if e.ok then Idle else Returned(Some(AppendFailed)), if e.taken then [] else worker.held, e.writer), e.sent)
  }

  function Apply<T>(c: Config<T>, s: State<T>, a: Action): State<T>
    requires Enabled(c, s, a)
  {
    match a
    case Send => s.(pos := s.pos + 1, chan := s.chan + [c.items[s.pos]])
    case HandOff(w) =>
      SetWorker(s, w, s.workers[w].(activity := Busy, held := [c.items[s.pos]])).(pos := s.pos + 1)
    case SendCanceled =>
      s.(producer := ProducerReturned(if s.parentDone then Some(ProducerCanceled) else None))
    case EndOfStream => s.(producer := ProducerReturned(None))
    case Receive(w) =>
      SetWorker(s, w, s.workers[w].(activity := Busy, held := [s.chan[0]])).(chan := s.chan[1..])
    case Drained(w) => SetWorker(s, w, s.workers[w].(activity := Returned(None)))
    case Handle(w, o) =>
      var (worker, sent) := HandleEntry(c, s.workers[w], o);
      SetWorker(s, w, worker).(table := s.table + sent)
    case ReportProducer =>
      s.(producer := ProducerExited(s.producer.result), first := Earliest(s.first, s.producer.result))
    case ReportWorker(w) =>
      var result := s.workers[w].activity.result;
      SetWorker(s, w, s.workers[w].(activity := Exited(result))).(first := Earliest(s.first, result))
    case CancelParent => s.(parentDone := true)
    case Wait => s.(phase := if s.first.Some? then Done(s.first) else Flushing(0))
    case FlushNext(sends) =>
      var i := s.phase.next;
      var e := FlushOf(s.workers[i].writer, sends);
      SetWorker(s, i, s.workers[i].(writer := e.writer))
        .(table := s.table + e.sent,
          phase := if e.ok then Flushing(i + 1) else Done(Some(FlushFailed)))
    case Finish => s.(phase := Done(None))
  }

  // ----- Where the entries are -----

  lemma CopiesSnoc<T>(xs: seq<T>, y: T, x: T)
    ensures Copies(xs + [y], x) == Copies(xs, x) + Copies([y], x)
  {
    CopiesConcat(xs, [y], x);
  }

  lemma CopiesOne<T>(y: T, x: T)
    ensures Copies([y], x) == if y == x then 1 else 0
  {
    assert [y][1..] == [];
  }

  ghost function Load<T>(w: Worker<T>, x: Entry<T>): nat {
    Copies(w.held, x) + Copies(w.writer.Pending(), x)
  }

  ghost function InWorkers<T>(ws: seq<Worker<T>>, x: Entry<T>): nat {
    if ws == [] then 0 else Load(ws[0], x) + InWorkers(ws[1..], x)
  }

  lemma {:induction false} ReplaceWorker<T>(ws: seq<Worker<T>>, i: nat, w: Worker<T>, x: Entry<T>)
    requires i < |ws|
    ensures InWorkers(ws[i := w], x) + Load(ws[i], x) == InWorkers(ws, x) + Load(w, x)
  {
    if i == 0 {
      assert ws[i := w][1..] == ws[1..];
    } else {
      ReplaceWorker(ws[1..], i - 1, w, x);
      assert ws[i := w][1..] == ws[1..][i - 1 := w];
    }
  }

  lemma {:induction false} NothingInWorkers<T>(ws: seq<Worker<T>>, x: Entry<T>)
    requires forall i :: 0 <= i < |ws| ==> ws[i].held == [] && ws[i].writer.Pending() == []
    ensures InWorkers(ws, x) == 0
  {
    if ws != [] {
      NothingInWorkers(ws[1..], x);
    }
  }

  /** How often x occurs in the channel, with the workers and in the table. */
  ghost function Located<T>(s: State<T>, x: Entry<T>): nat {
    Copies(s.chan, x) + InWorkers(s.workers, x) + Copies(s.table, x)
  }

  // ----- What every reachable state keeps -----

  /** Every entry produced is in exactly one place. */
  ghost predicate Conserved<T(!new)>(c: Config<T>, s: State<T>) {
    && s.pos <= |c.items|
    && forall x :: Copies(c.items[..s.pos], x) == Located(s, x)
  }

  ghost predicate WorkerInv<T>(s: State<T>, w: Worker<T>) {
    && (forall e :: e in w.writer.Pending() ==> !e.failed)
    && match w.activity
       case Idle => w.held == []
       case Busy => |w.held| == 1
       case Returned(r) => r.None? ==> w.held == [] && s.chan == [] && s.Closed()
       case Exited(r) => if r.None? then w.held == [] && s.chan == [] && s.Closed() else s.first.Some?
  }

  ghost predicate ProducerInv<T>(c: Config<T>, s: State<T>) {
    match s.producer
    case Offering => true
    case ProducerReturned(r) => r.None? ==> s.pos == |c.items| || s.first.Some?
    case ProducerExited(r) => s.first.Some? || (r.None? && s.pos == |c.items|)
  }

  ghost predicate PhaseInv<T>(s: State<T>) {
    match s.phase
    case Running => true
    case Flushing(i) => s.AllExited() && s.first.None? && i <= |s.workers| && Flushed(s, i)
    case Done(r) => s.AllExited() && (r.None? ==> s.first.None? && Flushed(s, |s.workers|))
  }

  ghost predicate Flushed<T>(s: State<T>, n: nat)
    requires n <= |s.workers|
  {
    forall j :: 0 <= j < n ==> s.workers[j].writer.Pending() == []
  }

  ghost predicate WorkersInv<T>(s: State<T>) {
    forall i :: 0 <= i < |s.workers| ==> WorkerInv(s, s.workers[i])
  }

  ghost predicate Inv<T(!new)>(c: Config<T>, s: State<T>) {
    && Conserved(c, s)
    && |s.workers| == c.workers
    && |s.chan| <= c.capacity
    && (forall e :: e in s.table ==> !e.failed)
    && WorkersInv(s)
    && ProducerInv(c, s)
    && PhaseInv(s)
  }

  lemma InvInit<T(!new)>(c: Config<T>)
    requires c.Valid()
    ensures Inv(c, Init(c))
  {
    assert c.items[..0] == [];
    forall x
      ensures InWorkers(Init(c).workers, x) == 0
    {
      NothingInWorkers(Init(c).workers, x);
    }
  }

  lemma InvStep<T(!new)>(c: Config<T>, s: State<T>, a: Action)
    requires c.Valid() && Inv(c, s) && Enabled(c, s, a)
    ensures Inv(c, Apply(c, s, a))
  {
    ConservedStep(c, s, a);
    match a {
      case HandOff(w) => WorkerStep(c, s, a, w);
      case Receive(w) => WorkerStep(c, s, a, w);
      case Drained(w) => WorkerStep(c, s, a, w);
      case ReportWorker(w) => WorkerStep(c, s, a, w);
      case Handle(w, o) => HandleStep(c, s, w, o);
      case FlushNext(sends) => FlushStep(c, s, sends);
      case _ => ControlStep(c, s, a);
    }
  }

  // One entry leaves the stream, or every entry stays where it is or moves.

  lemma ConservedStep<T(!new)>(c: Config<T>, s: State<T>, a: Action)
    requires Inv(c, s) && Enabled(c, s, a)
    ensures Conserved(c, Apply(c, s, a))
  {
    var t := Apply(c, s, a);
    if t.pos != s.pos {
      assert c.items[..t.pos] == c.items[..s.pos] + [c.items[s.pos]];
    }
    forall x
      ensures Copies(c.items[..t.pos], x) == Located(t, x)
    {
      LocatedStep(c, s, a, x);
      if t.pos != s.pos {
        CopiesSnoc(c.items[..s.pos], c.items[s.pos], x);
      }
    }
  }

  lemma LocatedStep<T(!new)>(c: Config<T>, s: State<T>, a: Action, x: Entry<T>)
    requires Inv(c, s) && Enabled(c, s, a)
    ensures var t := Apply(c, s, a);
      Located(t, x) == Located(s, x) + (if t.pos == s.pos then 0 else Copies([c.items[s.pos]], x))
  {
    match a {
      case Send => CopiesSnoc(s.chan, c.items[s.pos], x);
      case HandOff(w) => LocatedHandOff(c, s, w, x);
      case Receive(w) => LocatedReceive(c, s, w, x);
      case Drained(w) => MoveWorker(c, s, a, w, x);
      case ReportWorker(w) => MoveWorker(c, s, a, w, x);
      case Handle(w, o) =>
        LocatedHandle(c, s, w, o, x);
      case FlushNext(sends) =>
        LocatedFlush(c, s, sends, x);
      case _ =>
    }
  }

  lemma LocatedHandOff<T(!new)>(c: Config<T>, s: State<T>, w: nat, x: Entry<T>)
    requires Inv(c, s) && Enabled(c, s, HandOff(w))
    ensures Located(Apply(c, s, HandOff(w)), x) == Located(s, x) + Copies([c.items[s.pos]], x)
  {
    assert WorkerInv(s, s.workers[w]);
    MoveWorker(c, s, HandOff(w), w, x);
  }

  lemma LocatedReceive<T(!new)>(c: Config<T>, s: State<T>, w: nat, x: Entry<T>)
    requires Inv(c, s) && Enabled(c, s, Receive(w))
    ensures Located(Apply(c, s, Receive(w)), x) == Located(s, x)
  {
    assert WorkerInv(s, s.workers[w]);
    CopiesOne(s.chan[0], x);
    MoveWorker(c, s, Receive(w), w, x);
  }

  lemma LocatedHandle<T(!new)>(c: Config<T>, s: State<T>, w: nat, o: Outcome, x: Entry<T>)
    requires Inv(c, s) && Enabled(c, s, Handle(w, o))
    ensures Located(Apply(c, s, Handle(w, o)), x) == Located(s, x)
  {
    assert WorkerInv(s, s.workers[w]);
    HandleConserves(c, s.workers[w], o, x);
    CopiesConcat(s.table, HandleEntry(c, s.workers[w], o).1, x);
    MoveWorker(c, s, Handle(w, o), w, x);
  }

  lemma LocatedFlush<T(!new)>(c: Config<T>, s: State<T>, sends: bool, x: Entry<T>)
    requires Inv(c, s) && Enabled(c, s, FlushNext(sends))
    ensures Located(Apply(c, s, FlushNext(sends)), x) == Located(s, x)
  {
    var i := s.phase.next;
    var e := FlushOf(s.workers[i].writer, sends);
    FlushConserves(s.workers[i].writer, sends);
    CopiesConcat(e.sent, e.writer.Pending(), x);
    CopiesConcat(s.table, e.sent, x);
    MoveWorker(c, s, FlushNext(sends), i, x);
  }

  lemma MoveWorker<T>(c: Config<T>, s: State<T>, a: Action, i: nat, x: Entry<T>)
    requires Enabled(c, s, a) && i < |s.workers| && |Apply(c, s, a).workers| == |s.workers|
    requires Apply(c, s, a).workers == s.workers[i := Apply(c, s, a).workers[i]]
    ensures var t := Apply(c, s, a);
      InWorkers(t.workers, x) + Load(s.workers[i], x) == InWorkers(s.workers, x) + Load(t.workers[i], x)
  {
    ReplaceWorker(s.workers, i, Apply(c, s, a).workers[i], x);
  }

  lemma HandleConserves<T>(c: Config<T>, worker: Worker<T>, o: Outcome, x: Entry<T>)
    requires |worker.held| == 1
    ensures var (after, sent) := HandleEntry(c, worker, o);
      Load(after, x) + Copies(sent, x) == Load(worker, x)
  {
    if !worker.held[0].failed {
      var e := AppendOf(worker.writer, worker.held[0], c.batchSize, o);
      AppendConserves(worker.writer, worker.held[0], c.batchSize, o);
      CopiesConcat(e.sent, e.writer.Pending(), x);
      CopiesSnoc(worker.writer.Pending(), worker.held[0], x);
      assert worker.held == [worker.held[0]];
      assert worker.writer.Pending() + [] == worker.writer.Pending();
    }
  }

  /** What the other workers rely on only grows. */
  ghost predicate Onward<T>(s: State<T>, t: State<T>) {
    && (s.chan == [] && s.Closed() ==> t.chan == [] && t.Closed())
    && (s.first.Some? ==> t.first.Some?)
  }

  lemma OthersKeepInv<T>(s: State<T>, t: State<T>, i: nat)
    requires WorkersInv(s) && Onward(s, t) && i < |s.workers| == |t.workers|
    requires t.workers == s.workers[i := t.workers[i]] && WorkerInv(t, t.workers[i])
    ensures WorkersInv(t)
  {
    forall j | 0 <= j < |t.workers|
      ensures WorkerInv(t, t.workers[j])
    {
      if j != i {
        assert t.workers[j] == s.workers[j];
        assert WorkerInv(s, s.workers[j]);
      }
    }
  }

  lemma WorkerStep<T(!new)>(c: Config<T>, s: State<T>, a: Action, w: nat)
    requires c.Valid() && Inv(c, s) && Enabled(c, s, a) && Conserved(c, Apply(c, s, a))
    requires a == HandOff(w) || a == Receive(w) || a == Drained(w) || a == ReportWorker(w)
    ensures Inv(c, Apply(c, s, a))
  {
    assert WorkerInv(s, s.workers[w]);
    assert !s.AllExited();
    OthersKeepInv(s, Apply(c, s, a), w);
  }

  lemma HandleStep<T(!new)>(c: Config<T>, s: State<T>, w: nat, o: Outcome)
    requires c.Valid() && Inv(c, s) && Enabled(c, s, Handle(w, o)) && Conserved(c, Apply(c, s, Handle(w, o)))
    ensures Inv(c, Apply(c, s, Handle(w, o)))
  {
    var t, worker := Apply(c, s, Handle(w, o)), s.workers[w];
    assert WorkerInv(s, worker);
    assert !s.AllExited();
    HandleKeepsGood(c, worker, o);
    OthersKeepInv(s, t, w);
  }

  lemma HandleKeepsGood<T>(c: Config<T>, worker: Worker<T>, o: Outcome)
    requires worker.held != [] && forall e :: e in worker.writer.Pending() ==> !e.failed
    ensures var (after, sent) := HandleEntry(c, worker, o);
      && (forall e :: e in after.writer.Pending() ==> !e.failed)
      && (forall e :: e in sent ==> !e.failed)
      && (after.activity.Idle? ==> after.held == [])
      && (after.activity.Idle? || (after.activity.Returned? && after.activity.result.Some?))
  {
    if !worker.held[0].failed {
      AppendConserves(worker.writer, worker.held[0], c.batchSize, o);
      var e := AppendOf(worker.writer, worker.held[0], c.batchSize, o);
      forall x | x in e.sent || x in e.writer.Pending()
        ensures !x.failed
      {
        assert x in e.sent + e.writer.Pending();
      }
    }
  }

  lemma FlushStep<T(!new)>(c: Config<T>, s: State<T>, sends: bool)
    requires c.Valid() && Inv(c, s) && Enabled(c, s, FlushNext(sends)) && Conserved(c, Apply(c, s, FlushNext(sends)))
    ensures Inv(c, Apply(c, s, FlushNext(sends)))
  {
    var t, i := Apply(c, s, FlushNext(sends)), s.phase.next;
    FlushConserves(s.workers[i].writer, sends);
    assert WorkerInv(s, s.workers[i]);
    OthersKeepInv(s, t, i);
    assert forall j :: 0 <= j < |s.workers| ==> t.workers[j].activity == s.workers[j].activity;
  }

  lemma ControlStep<T(!new)>(c: Config<T>, s: State<T>, a: Action)
    requires c.Valid() && Inv(c, s) && Enabled(c, s, a) && Conserved(c, Apply(c, s, a))
    requires Apply(c, s, a).workers == s.workers && !a.FlushNext?
    ensures Inv(c, Apply(c, s, a))
  {
    var t := Apply(c, s, a);
    forall i | 0 <= i < |t.workers|
      ensures WorkerInv(t, t.workers[i])
    {
      assert WorkerInv(s, s.workers[i]);
    }
  }

  // ----- Runs -----

  ghost predicate Step<T>(c: Config<T>, s: State<T>, t: State<T>) {
    exists a :: Enabled(c, s, a) && t == Apply(c, s, a)
  }

  /** run lists the states of an execution from the initial one. */
  ghost predicate IsRun<T>(c: Config<T>, run: seq<State<T>>) {
    && run != []
    && run[0] == Init(c)
    && forall i :: 0 <= i < |run| - 1 ==> Step(c, run[i], run[i + 1])
  }

  lemma {:induction false} RunKeepsInv<T(!new)>(c: Config<T>, run: seq<State<T>>)
    requires c.Valid() && IsRun(c, run)
    ensures Inv(c, run[|run| - 1])
    decreases |run|
  {
    if |run| == 1 {
      InvInit(c);
    } else {
      var before := run[..|run| - 1];
      RunKeepsInv(c, before);
      assert Step(c, run[|before| - 1], run[|before|]);
      var a :| Enabled(c, before[|before| - 1], a) && run[|before|] == Apply(c, before[|before| - 1], a);
      InvStep(c, before[|before| - 1], a);
    }
  }

  /** At every moment of every run, each entry produced so far is in exactly one
      place, and the table holds no more than the stream and no failed entry. */
  lemma EveryRunConserves<T(!new)>(c: Config<T>, run: seq<State<T>>)
    requires c.Valid() && IsRun(c, run)
    ensures var s := run[|run| - 1];
      && Conserved(c, s)
      && multiset(s.table) <= multiset(c.items)
      && (forall e :: e in s.table ==> !e.failed)
      && |s.chan| <= c.capacity
  {
    RunKeepsInv(c, run);
    var s := run[|run| - 1];
    forall x
      ensures multiset(s.table)[x] <= multiset(c.items)[x]
    {
      assert c.items == c.items[..s.pos] + c.items[s.pos..];
      CopiesConcat(c.items[..s.pos], c.items[s.pos..], x);
      CopiesIsMultiplicity(s.table, x);
      CopiesIsMultiplicity(c.items, x);
    }
  }

  /** Ingest returns nil only if the stream carried no error and the table
      received exactly its entries. */
  lemma SuccessSendsTheStream<T(!new)>(c: Config<T>, s: State<T>)
    requires c.Valid() && Inv(c, s) && s.phase == Done(None)
    ensures multiset(s.table) == multiset(c.items)
    ensures forall e :: e in c.items ==> !e.failed
  {
    assert WorkerInv(s, s.workers[0]);
    forall i | 0 <= i < |s.workers|
      ensures s.workers[i].held == [] && s.workers[i].writer.Pending() == []
    {
      assert WorkerInv(s, s.workers[i]);
    }
    assert c.items[..s.pos] == c.items;
    forall x
      ensures multiset(s.table)[x] == multiset(c.items)[x]
    {
      NothingInWorkers(s.workers, x);
      CopiesIsMultiplicity(s.table, x);
      CopiesIsMultiplicity(c.items, x);
    }
    forall e | e in c.items
      ensures !e.failed
    {
      assert e in multiset(c.items);
      assert e in multiset(s.table);
    }
  }

  // ----- No deadlock, and every run ends -----

  predicate Benign(a: Action) {
    match a
    case CancelParent => false
    case Handle(_, o) => o == Outcome(true, true, true)
    case FlushNext(sends) => sends
    case _ => true
  }

  /** No reachable state is stuck before Ingest returns, even when every worker
      has failed, and getting on needs no new failure and no cancellation. */
  lemma NoDeadlock<T(!new)>(c: Config<T>, s: State<T>)
    requires c.Valid() && Inv(c, s) && !s.phase.Done?
    ensures exists a :: Enabled(c, s, a) && Benign(a)
  {
    assert forall i :: 0 <= i < |s.workers| ==> WorkerInv(s, s.workers[i]);
    if s.phase.Flushing? {
      var a := if s.phase.next < |s.workers| then FlushNext(true) else Finish;
      assert Enabled(c, s, a) && Benign(a);
    } else if i :| 0 <= i < |s.workers| && s.workers[i].activity.Returned? {
      assert Enabled(c, s, ReportWorker(i)) && Benign(ReportWorker(i));
    } else if i :| 0 <= i < |s.workers| && s.workers[i].activity.Busy? {
      var a := Handle(i, Outcome(true, true, true));
      assert Enabled(c, s, a) && Benign(a);
    } else if s.producer.ProducerReturned? {
      assert Enabled(c, s, ReportProducer) && Benign(ReportProducer);
    } else if i :| 0 <= i < |s.workers| && s.workers[i].activity.Idle? {
      var a :=
        if s.chan != [] then Receive(i)
        else if s.Closed() then Drained(i)
        else if s.pos == |c.items| then EndOfStream
        else if c.capacity == 0 then HandOff(i)
        else Send;
      assert Enabled(c, s, a) && Benign(a);
    } else {
      assert s.workers[0].activity.Exited?;
      var a := if s.Closed() then Wait else if s.pos == |c.items| then EndOfStream else SendCanceled;
      assert Enabled(c, s, a) && Benign(a);
    }
  }

  function ActivityRank(a: Activity): nat {
    match a
    case Busy => 3
    case Idle => 2
    case Returned(_) => 1
    case Exited(_) => 0
  }

  function WorkersRank<T>(ws: seq<Worker<T>>): nat {
    if ws == [] then 0 else ActivityRank(ws[0].activity) + WorkersRank(ws[1..])
  }

  lemma {:induction false} ReplaceRank<T>(ws: seq<Worker<T>>, i: nat, w: Worker<T>)
    requires i < |ws|
    ensures WorkersRank(ws[i := w]) + ActivityRank(ws[i].activity) == WorkersRank(ws) + ActivityRank(w.activity)
  {
    if i == 0 {
      assert ws[i := w][1..] == ws[1..];
    } else {
      ReplaceRank(ws[1..], i - 1, w);
      assert ws[i := w][1..] == ws[1..][i - 1 := w];
    }
  }

  lemma {:induction false} InitRank<T>(ws: seq<Worker<T>>)
    requires forall i :: 0 <= i < |ws| ==> ws[i].activity.Idle?
    ensures WorkersRank(ws) == 2 * |ws|
  {
    if ws != [] {
      InitRank(ws[1..]);
    }
  }

  function ProducerRank(p: Producer): nat {
    match p
    case Offering => 2
    case ProducerReturned(_) => 1
    case ProducerExited(_) => 0
  }

  function PhaseRank(p: Phase, workers: nat): nat {
    match p
    case Running => workers + 2
    case Flushing(next) => if next <= workers then workers - next + 1 else 0
    case Done(_) => 0
  }

  /** A bound on the steps left. */
  function Measure<T>(c: Config<T>, s: State<T>): nat
    requires s.pos <= |c.items|
  {
    3 * (|c.items| - s.pos) + 2 * |s.chan| + WorkersRank(s.workers) + ProducerRank(s.producer)
    + PhaseRank(s.phase, |s.workers|) + (if s.parentDone then 0 else 1)
  }

  lemma StepDecreasesMeasure<T>(c: Config<T>, s: State<T>, a: Action)
    requires s.pos <= |c.items| && Enabled(c, s, a)
    ensures Apply(c, s, a).pos <= |c.items| && Measure(c, Apply(c, s, a)) < Measure(c, s)
  {
    match a {
      case HandOff(w) => WorkerMeasure(c, s, a, w);
      case Receive(w) => WorkerMeasure(c, s, a, w);
      case Drained(w) => WorkerMeasure(c, s, a, w);
      case Handle(w, _) => WorkerMeasure(c, s, a, w);
      case ReportWorker(w) => WorkerMeasure(c, s, a, w);
      case FlushNext(_) =>
        ReplaceRank(s.workers, s.phase.next, Apply(c, s, a).workers[s.phase.next]);
      case _ =>
    }
  }

  lemma WorkerMeasure<T>(c: Config<T>, s: State<T>, a: Action, w: nat)
    requires s.pos <= |c.items| && Enabled(c, s, a)
    requires a == HandOff(w) || a == Receive(w) || a == Drained(w) || a == ReportWorker(w) || (a.Handle? && a.w == w)
    ensures Apply(c, s, a).pos <= |c.items| && Measure(c, Apply(c, s, a)) < Measure(c, s)
  {
    ReplaceRank(s.workers, w, Apply(c, s, a).workers[w]);
  }

  /** No run takes more than three steps an entry, three a worker and five. */
  lemma {:induction false} EveryRunEnds<T(!new)>(c: Config<T>, run: seq<State<T>>)
    requires c.Valid() && IsRun(c, run)
    ensures run[|run| - 1].pos <= |c.items|
    ensures |run| - 1 + Measure(c, run[|run| - 1]) <= 3 * |c.items| + 3 * c.workers + 5
    decreases |run|
  {
    if |run| == 1 {
      InitRank(Init(c).workers);
    } else {
      var before := run[..|run| - 1];
      EveryRunEnds(c, before);
      assert Step(c, run[|before| - 1], run[|before|]);
      var a :| Enabled(c, before[|before| - 1], a) && run[|before|] == Apply(c, before[|before| - 1], a);
      StepDecreasesMeasure(c, before[|before| - 1], a);
    }
  }

  // ----- The channel and the totals -----

  /** The channel holds the latest entries of the stream, in order: entries leave
      it in the order they came. */
  ghost predicate IsFifo<T>(c: Config<T>, s: State<T>) {
    |s.chan| <= s.pos <= |c.items| && s.chan == c.items[s.pos - |s.chan|..s.pos]
  }

  lemma FifoStep<T(!new)>(c: Config<T>, s: State<T>, a: Action)
    requires Inv(c, s) && IsFifo(c, s) && Enabled(c, s, a)
    ensures IsFifo(c, Apply(c, s, a))
  {
    var t := Apply(c, s, a);
    if a.Send? {
      assert c.items[s.pos - |s.chan|..t.pos] == s.chan + [c.items[s.pos]];
    } else if a.HandOff? {
      assert s.chan == [];
    }
  }

  function Totals<T>(ws: seq<Worker<T>>): nat {
    if ws == [] then 0 else ws[0].writer.total + Totals(ws[1..])
  }

  function PendingRows<T>(ws: seq<Worker<T>>): nat {
    if ws == [] then 0 else |ws[0].writer.Pending()| + PendingRows(ws[1..])
  }

  lemma {:induction false} ReplaceTotals<T>(ws: seq<Worker<T>>, i: nat, w: Worker<T>)
    requires i < |ws|
    ensures Totals(ws[i := w]) + ws[i].writer.total == Totals(ws) + w.writer.total
    ensures PendingRows(ws[i := w]) + |ws[i].writer.Pending()| == PendingRows(ws) + |w.writer.Pending()|
  {
    if i == 0 {
      assert ws[i := w][1..] == ws[1..];
    } else {
      ReplaceTotals(ws[1..], i - 1, w);
      assert ws[i := w][1..] == ws[1..][i - 1 := w];
    }
  }

  lemma {:induction false} NoTotals<T>(ws: seq<Worker<T>>)
    requires forall i :: 0 <= i < |ws| ==> ws[i].writer == Writer(None, 0)
    ensures Totals(ws) == 0 && PendingRows(ws) == 0
  {
    if ws != [] {
      NoTotals(ws[1..]);
    }
  }

  /** The writers' totals count the rows in the table and those pending. */
  lemma TotalsStep<T>(c: Config<T>, s: State<T>, a: Action)
    requires Enabled(c, s, a) && Totals(s.workers) == |s.table| + PendingRows(s.workers)
    ensures var t := Apply(c, s, a); Totals(t.workers) == |t.table| + PendingRows(t.workers)
  {
    var t := Apply(c, s, a);
    match a {
      case HandOff(w) => ReplaceTotals(s.workers, w, t.workers[w]);
      case Receive(w) => ReplaceTotals(s.workers, w, t.workers[w]);
      case Drained(w) => ReplaceTotals(s.workers, w, t.workers[w]);
      case ReportWorker(w) => ReplaceTotals(s.workers, w, t.workers[w]);
      case Handle(w, o) =>
        ReplaceTotals(s.workers, w, t.workers[w]);
        AppendCounts(s.workers[w].writer, s.workers[w].held[0], c.batchSize, o);
      case FlushNext(sends) =>
        ReplaceTotals(s.workers, s.phase.next, t.workers[s.phase.next]);
        FlushConserves(s.workers[s.phase.next].writer, sends);
      case _ =>
    }
  }

  lemma AppendCounts<T>(w: Writer<Entry<T>>, row: Entry<T>, size: nat, o: Outcome)
    ensures var e := AppendOf(w, row, size, o);
      |e.sent| + |e.writer.Pending()| - |w.Pending()| == e.writer.total - w.total
  {
    AppendConserves(w, row, size, o);
    var e := AppendOf(w, row, size, o);
    assert |e.sent + e.writer.Pending()| == |e.sent| + |e.writer.Pending()|;
  }

  /** In every run the channel is first in, first out, and the totals agree. */
  lemma {:induction false} EveryRunCounts<T(!new)>(c: Config<T>, run: seq<State<T>>)
    requires c.Valid() && IsRun(c, run)
    ensures var s := run[|run| - 1];
      IsFifo(c, s) && Totals(s.workers) == |s.table| + PendingRows(s.workers)
    decreases |run|
  {
    if |run| == 1 {
      NoTotals(Init(c).workers);
    } else {
      var before := run[..|run| - 1];
      var n := |before| - 1;
      RunKeepsInv(c, before);
      EveryRunCounts(c, before);
      assert Step(c, run[n], run[n + 1]);
      var a :| Enabled(c, before[n], a) && run[n + 1] == Apply(c, before[n], a);
      FifoStep(c, before[n], a);
      TotalsStep(c, before[n], a);
    }
  }

  /** The producer returns nil at the end of the stream; before that it returns
      only when the context is done, with an error exactly when the caller's is. */
  lemma ProducerReturnsExactly<T>(c: Config<T>, s: State<T>, a: Action)
    requires Enabled(c, s, a) && s.pos <= |c.items| && s.producer.Offering? && !Apply(c, s, a).producer.Offering?
    ensures var r := Apply(c, s, a).producer;
      && (s.pos == |c.items| ==> r == ProducerReturned(None))
      && (s.pos < |c.items| ==>
            (s.parentDone || s.first.Some?) && r == ProducerReturned(if s.parentDone then Some(ProducerCanceled) else None))
  {
  }

  // ----- Which failure is reported -----

  ghost predicate HasFailedEntry<T>(c: Config<T>) {
    exists e :: e in c.items && e.failed
  }

  /** What a goroutine may return: the producer only the caller's cancellation, a
      worker a failed entry of the stream or a failed append. */
  ghost predicate IsProducerResult<T>(s: State<T>, r: Option<Failure>) {
    r.Some? ==> r == Some(ProducerCanceled) && s.parentDone
  }

  ghost predicate IsWorkerResult<T>(c: Config<T>, r: Option<Failure>) {
    r.Some? ==> r == Some(AppendFailed) || (r == Some(StreamFailed) && HasFailedEntry(c))
  }

  ghost predicate WorkerFailureInv<T>(c: Config<T>, w: Worker<T>) {
    w.activity.Returned? || w.activity.Exited? ==> IsWorkerResult(c, w.activity.result)
  }

  ghost predicate FailureInv<T>(c: Config<T>, s: State<T>) {
    && (s.Closed() ==> IsProducerResult(s, s.producer.result))
    && (forall i :: 0 <= i < |s.workers| ==> WorkerFailureInv(c, s.workers[i]))
    && (IsProducerResult(s, s.first) || IsWorkerResult(c, s.first))
    && (s.phase.Done? ==> s.phase.result == s.first || (s.first.None? && s.phase.result == Some(FlushFailed)))
    && (s.phase.Flushing? ==> s.first.None?)
  }

  lemma FailureInvStep<T(!new)>(c: Config<T>, s: State<T>, a: Action)
    requires Inv(c, s) && FailureInv(c, s) && Enabled(c, s, a)
    ensures FailureInv(c, Apply(c, s, a))
    ensures s.first.Some? ==> Apply(c, s, a).first == s.first
  {
    var t := Apply(c, s, a);
    if s.phase.Done? {
      assert s.AllExited();
    }
    forall i | 0 <= i < |t.workers|
      ensures WorkerFailureInv(c, t.workers[i])
    {
      assert WorkerFailureInv(c, s.workers[i]);
      if a.Handle? && a.w == i {
        HeldIsFromStream(c, s, i);
      }
    }
    if a.ReportWorker? {
      assert WorkerFailureInv(c, s.workers[a.w]);
    }
  }

  /** In every run the first failure reported to the errgroup stays. Ingest returns
      it, or a failed flush when there is none; it is a cancellation only if the
      caller canceled, and a stream error only if the stream carried one. */
  lemma {:induction false} EveryRunReportsTheFirstFailure<T(!new)>(c: Config<T>, run: seq<State<T>>, i: nat)
    requires c.Valid() && IsRun(c, run) && i < |run|
    ensures var s := run[|run| - 1];
      && FailureInv(c, s)
      && (run[i].first.Some? ==> s.first == run[i].first)
      && (s.phase == Done(Some(ProducerCanceled)) ==> s.parentDone)
      && (s.phase == Done(Some(StreamFailed)) ==> HasFailedEntry(c))
    decreases |run|
  {
    if |run| > 1 {
      var before := run[..|run| - 1];
      var n := |before| - 1;
      RunKeepsInv(c, before);
      EveryRunReportsTheFirstFailure(c, before, if i < |before| then i else n);
      FailureInvOneMore(c, before[n], run[n + 1]) by {
        assert Step(c, run[n], run[n + 1]);
      }
    }
    FailureMeans(c, run[|run| - 1]);
  }

  lemma FailureInvOneMore<T(!new)>(c: Config<T>, s: State<T>, t: State<T>)
    requires Inv(c, s) && FailureInv(c, s) && Step(c, s, t)
    ensures FailureInv(c, t) && (s.first.Some? ==> t.first == s.first)
  {
    var a :| Enabled(c, s, a) && t == Apply(c, s, a);
    FailureInvStep(c, s, a);
  }

  lemma FailureMeans<T>(c: Config<T>, s: State<T>)
    requires FailureInv(c, s)
    ensures s.phase == Done(Some(ProducerCanceled)) ==> s.parentDone
    ensures s.phase == Done(Some(StreamFailed)) ==> HasFailedEntry(c)
  {
  }

  lemma RunSnoc<T>(c: Config<T>, run: seq<State<T>>, a: Action) returns (longer: seq<State<T>>)
    requires IsRun(c, run) && Enabled(c, run[|run| - 1], a)
    ensures IsRun(c, longer) && longer[|longer| - 1] == Apply(c, run[|run| - 1], a)
  {
    longer := run + [Apply(c, run[|run| - 1], a)];
    forall i | 0 <= i < |longer| - 1
      ensures Step(c, longer[i], longer[i + 1])
    {
      if i < |run| - 1 {
        assert Step(c, run[i], run[i + 1]);
      }
    }
  }

  // Each failure can be the one returned, here with one worker, no channel buffer,
  // batches of two and a stream of one entry.

  function Small<T>(e: Entry<T>): Config<T> {
    Config([e], 1, 0, 2)
  }

  lemma {:induction false} CancellationIsReturned<T>(e: Entry<T>) returns (run: seq<State<T>>)
    ensures IsRun(Small(e), run) && run[|run| - 1].phase == Done(Some(ProducerCanceled))
  {
    var c := Small(e);
    run := [Init(c)];
    run := RunSnoc(c, run, CancelParent);
    run := RunSnoc(c, run, SendCanceled);
    run := RunSnoc(c, run, ReportProducer);
    run := RunSnoc(c, run, Drained(0));
    run := RunSnoc(c, run, ReportWorker(0));
    run := RunSnoc(c, run, Wait);
  }

  /** A failed entry is a stream error; for another one, the append may fail. */
  lemma {:induction false} EntryFailureIsReturned<T>(e: Entry<T>) returns (run: seq<State<T>>)
    ensures IsRun(Small(e), run)
    ensures run[|run| - 1].phase == Done(Some(if e.failed then StreamFailed else AppendFailed))
  {
    var c := Small(e);
    run := [Init(c)];
    run := RunSnoc(c, run, HandOff(0));
    run := RunSnoc(c, run, Handle(0, Outcome(true, false, true)));
    run := RunSnoc(c, run, ReportWorker(0));
    run := RunSnoc(c, run, EndOfStream);
    run := RunSnoc(c, run, ReportProducer);
    run := RunSnoc(c, run, Wait);
  }

  lemma {:induction false} FlushFailureIsReturned<T>(e: Entry<T>) returns (run: seq<State<T>>)
    requires !e.failed
    ensures IsRun(Small(e), run) && run[|run| - 1].phase == Done(Some(FlushFailed))
  {
    var c := Small(e);
    run := [Init(c)];
    run := RunSnoc(c, run, HandOff(0));
    run := RunSnoc(c, run, Handle(0, Outcome(true, true, true)));
    run := RunSnoc(c, run, EndOfStream);
    run := RunSnoc(c, run, ReportProducer);
    run := RunSnoc(c, run, Drained(0));
    run := RunSnoc(c, run, ReportWorker(0));
    run := RunSnoc(c, run, Wait);
    run := RunSnoc(c, run, FlushNext(false));
  }

  // ----- Without outside failures -----

  /** Nothing has gone wrong so far. */
  ghost predicate Clean<T>(s: State<T>) {
    && s.first.None? && !s.parentDone
    && (s.Closed() ==> s.producer.result.None?)
    && (forall i :: 0 <= i < |s.workers| ==> CleanWorker(s.workers[i]))
    && (s.phase.Done? ==> s.phase.result.None?)
  }

  predicate CleanWorker<T>(w: Worker<T>) {
    w.activity.Returned? || w.activity.Exited? ==> w.activity.result.None?
  }

  lemma {:induction false} LoadIsPart<T>(ws: seq<Worker<T>>, i: nat, x: Entry<T>)
    requires i < |ws|
    ensures Load(ws[i], x) <= InWorkers(ws, x)
  {
    if i > 0 {
      LoadIsPart(ws[1..], i - 1, x);
    }
  }

  /** What a worker holds comes from the stream. */
  lemma {:induction false} HeldIsFromStream<T(!new)>(c: Config<T>, s: State<T>, w: nat)
    requires Conserved(c, s) && w < |s.workers| && s.workers[w].held != []
    ensures s.workers[w].held[0] in c.items
  {
    var x := s.workers[w].held[0];
    LoadIsPart(s.workers, w, x);
    CopiesIsMultiplicity(c.items[..s.pos], x);
    assert Copies(s.workers[w].held, x) >= 1;
    assert x in multiset(c.items[..s.pos]);
    assert x in c.items[..s.pos];
  }

  lemma QuietStaysClean<T(!new)>(c: Config<T>, s: State<T>, a: Action)
    requires Inv(c, s) && Clean(s) && Enabled(c, s, a) && Benign(a)
    requires forall e :: e in c.items ==> !e.failed
    ensures Clean(Apply(c, s, a))
  {
    match a {
      case Handle(w, o) =>
        HeldIsFromStream(c, s, w);
        assert HandleEntry(c, s.workers[w], o).0.activity == Idle;
        OthersStayClean(s, Apply(c, s, a), w);
      case HandOff(w) => OthersStayClean(s, Apply(c, s, a), w);
      case Receive(w) => OthersStayClean(s, Apply(c, s, a), w);
      case Drained(w) => OthersStayClean(s, Apply(c, s, a), w);
      case ReportWorker(w) =>
        assert CleanWorker(s.workers[w]);
        OthersStayClean(s, Apply(c, s, a), w);
      case FlushNext(sends) =>
        assert CleanWorker(s.workers[s.phase.next]);
        OthersStayClean(s, Apply(c, s, a), s.phase.next);
      case _ =>
    }
  }

  lemma OthersStayClean<T>(s: State<T>, t: State<T>, i: nat)
    requires forall j :: 0 <= j < |s.workers| ==> CleanWorker(s.workers[j])
    requires i < |s.workers| == |t.workers| && t.workers == s.workers[i := t.workers[i]] && CleanWorker(t.workers[i])
    ensures forall j :: 0 <= j < |t.workers| ==> CleanWorker(t.workers[j])
  {
    forall j | 0 <= j < |t.workers|
      ensures CleanWorker(t.workers[j])
    {
      assert j != i ==> CleanWorker(s.workers[j]);
    }
  }

  ghost predicate QuietStep<T>(c: Config<T>, s: State<T>, t: State<T>) {
    exists a :: Enabled(c, s, a) && Benign(a) && t == Apply(c, s, a)
  }

  ghost predicate IsQuietRun<T>(c: Config<T>, run: seq<State<T>>) {
    && run != []
    && run[0] == Init(c)
    && forall i :: 0 <= i < |run| - 1 ==> QuietStep(c, run[i], run[i + 1])
  }

  /** Under every interleaving in which the server, the stream and the caller
      cause no failure, nothing goes wrong: Ingest returns nil, with the whole
      stream in the table. */
  lemma {:induction false} QuietRunsSucceed<T(!new)>(c: Config<T>, run: seq<State<T>>)
    requires c.Valid() && IsQuietRun(c, run) && forall e :: e in c.items ==> !e.failed
    ensures var s := run[|run| - 1];
      && Inv(c, s) && Clean(s)
      && (s.phase.Done? ==> s.phase == Done(None) && multiset(s.table) == multiset(c.items))
    decreases |run|
  {
    var s := run[|run| - 1];
    if |run| == 1 {
      InvInit(c);
    } else {
      var before := run[..|run| - 1];
      QuietRunsSucceed(c, before);
      assert QuietStep(c, run[|before| - 1], run[|before|]);
      var a :| Enabled(c, before[|before| - 1], a) && Benign(a) && s == Apply(c, before[|before| - 1], a);
      InvStep(c, before[|before| - 1], a);
      QuietStaysClean(c, before[|before| - 1], a);
    }
    if s.phase.Done? {
      SuccessSendsTheStream(c, s);
    }
  }
}
