/**
 The two-goroutine pipeline of upload-fies and upload-pds: a producer groups
 the selected rows into batches and sends them on a channel of capacity 2, a
 consumer inserts them, and an errgroup cancels both on the first error.

 Every action below is one step of one goroutine, of the errgroup, or of the
 caller that cancels the context. A run is any interleaving of enabled actions.
 */
module Transfer {
  import opened Common

  const CHANNEL_CAPACITY := 2

  // ----- Batches: how a stream of rows is cut -----

  /** xs cut into pieces of size elements, the last one possibly shorter. */
  function Chunks<T>(xs: seq<T>, size: nat): seq<seq<T>>
    requires size >= 1
  {
    if xs == [] then []
    else if |xs| <= size then [xs]
    else [xs[..size]] + Chunks(xs[size..], size)
  }

  /** No batch is empty or too long, and every batch but the last is full. */
  ghost predicate Packed<T>(batches: seq<seq<T>>, size: nat) {
    forall i :: 0 <= i < |batches| ==>
      0 < |batches[i]| <= size && (i < |batches| - 1 ==> |batches[i]| == size)
  }

  ghost predicate AllFull<T>(batches: seq<seq<T>>, size: nat) {
    forall b :: b in batches ==> |b| == size
  }

  lemma {:induction false} ChunksArePacked<T>(xs: seq<T>, size: nat)
    requires size >= 1
    ensures Packed(Chunks(xs, size), size) && Flatten(Chunks(xs, size)) == xs
  {
    if xs == [] {
    } else if |xs| <= size {
      assert [xs] + [] == [xs];
      FlattenCons(xs, []);
    } else {
      var first, rest := xs[..size], Chunks(xs[size..], size);
      ChunksArePacked(xs[size..], size);
      PackedCons(first, rest, size);
      FlattenCons(first, rest);
      assert xs == first + xs[size..];
    }
  }

  lemma PackedCons<T>(first: seq<T>, rest: seq<seq<T>>, size: nat)
    requires 0 < |first| == size && Packed(rest, size)
    ensures Packed([first] + rest, size)
  {
    forall i | 0 < i <= |rest|
      ensures ([first] + rest)[i] == rest[i - 1]
    {
    }
  }

  /** There is only one way to pack a stream into batches. */
  lemma {:induction false} PackedIsChunks<T>(batches: seq<seq<T>>, size: nat)
    requires size >= 1 && Packed(batches, size)
    ensures batches == Chunks(Flatten(batches), size)
  {
    if |batches| > 1 {
      var rest := batches[1..];
      assert forall i :: 0 <= i < |rest| ==> rest[i] == batches[i + 1];
      PackedIsChunks(rest, size);
      assert Flatten(rest) == rest[0] + Flatten(rest[1..]);
      assert Flatten(batches)[..size] == batches[0] && Flatten(batches)[size..] == Flatten(rest);
    } else if |batches| == 1 {
      assert Flatten(batches) == batches[0];
    }
  }

  // ----- The state machine -----

  /** What is transferred: the rows the source yields, whether it then ends
      without an error, and the rows per insert. */
  datatype Config<T> = Config(rows: seq<T>, complete: bool, size: nat)

  datatype Error = ReadFailed | Canceled | InsertFailed

  datatype Producer =
    | Reading                                   // in the row callback, or asking for the next row
    | Sending                                   // the batch is full: the callback's select
    | Closing                                   // the last batch: the select after the loop
    | ProducerReturned(result: Option<Error>)   // the channel is closed, the errgroup not yet told
    | ProducerExited(result: Option<Error>)

  datatype Consumer =
    | Receiving
    | Inserting
    | ConsumerReturned(result: Option<Error>)
    | ConsumerExited(result: Option<Error>)

  datatype State<T> = State(
    producer: Producer,
    read: nat,                 // rows taken from the source
    partial: seq<T>,           // the producer's batch
    chan: seq<seq<T>>,
    consumer: Consumer,
    inflight: seq<T>,          // the batch passed to Insert, kept when Insert fails
    inserted: seq<seq<T>>,     // the batches whose insert succeeded
    sent: nat,                 // the consumer's count of rows sent
    parentDone: bool,          // the caller's context is canceled
    first: Option<Error>)      // the errgroup's first error
  {
    predicate Canceled() { parentDone || first.Some? }

    predicate Closed() { producer.ProducerReturned? || producer.ProducerExited? }

    predicate Final() { producer.ProducerExited? && consumer.ConsumerExited? }

    /** Every batch made so far, oldest first. */
    function Batches(): seq<seq<T>> {
      Sent() + Piece(partial)
    }

    /** The batches that left the producer, oldest first. */
    function Sent(): seq<seq<T>> {
      inserted + Piece(inflight) + chan
    }
  }

  function Piece<T>(batch: seq<T>): seq<seq<T>> {
    if batch == [] then [] else [batch]
  }

  datatype Action =
    | ReadRow | ReadFails | EndOfRows | SendBatch | SendCanceled
    | ReceiveBatch | ChannelDrained | InsertSucceeds | InsertFails
    | ReportProducer | ReportConsumer | CancelParent

  function Init<T>(): State<T> {
    State(Reading, 0, [], [], Receiving, [], [], 0, false, None)
  }

  predicate Enabled<T>(c: Config<T>, s: State<T>, a: Action) {
    match a
    case ReadRow => s.producer.Reading? && s.read < |c.rows|
    case ReadFails => s.producer.Reading?
    case EndOfRows => s.producer.Reading? && s.read == |c.rows| && c.complete
    case SendBatch => (s.producer.Sending? || s.producer.Closing?) && |s.chan| < CHANNEL_CAPACITY
    case SendCanceled => (s.producer.Sending? || s.producer.Closing?) && s.Canceled()
    case ReceiveBatch => s.consumer.Receiving? && s.chan != []
    case ChannelDrained => s.consumer.Receiving? && s.chan == [] && s.Closed()
    case InsertSucceeds => s.consumer.Inserting?
    case InsertFails => s.consumer.Inserting?
    case ReportProducer => s.producer.ProducerReturned?
    case ReportConsumer => s.consumer.ConsumerReturned?
    case CancelParent => !s.parentDone
  }

  function Apply<T>(c: Config<T>, s: State<T>, a: Action): State<T>
    requires Enabled(c, s, a)
  {
    match a
    case ReadRow =>
      var batch := s.partial + [c.rows[s.read]];
      s.(read := s.read + 1, partial := batch, producer := if |batch| < c.size then Reading else Sending)
    case ReadFails => s.(producer := ProducerReturned(Some(ReadFailed)))
    case EndOfRows => s.(producer := if s.partial == [] then ProducerReturned(None) else Closing)
    case SendBatch =>
      s.(chan := s.chan + [s.partial], partial := [],
         producer := if s.producer.Sending? then Reading else ProducerReturned(None))
    case SendCanceled => s.(producer := ProducerReturned(Some(Error.Canceled)))
    case ReceiveBatch => s.(inflight := s.chan[0], chan := s.chan[1..], consumer := Inserting)
    case ChannelDrained => s.(consumer := ConsumerReturned(None))
    case InsertSucceeds =>
      s.(inserted := s.inserted + [s.inflight], sent := s.sent + |s.inflight|, inflight := [], consumer := Receiving)
    case InsertFails => s.(consumer := ConsumerReturned(Some(InsertFailed)))
    case ReportProducer =>
      s.(producer := ProducerExited(s.producer.result), first := Earliest(s.first, s.producer.result))
    case ReportConsumer =>
      s.(consumer := ConsumerExited(s.consumer.result), first := Earliest(s.first, s.consumer.result))
    case CancelParent => s.(parentDone := true)
  }

  // ----- What every reachable state keeps -----

  ghost predicate Inv<T>(c: Config<T>, s: State<T>) {
    && s.read <= |c.rows|
    && Flatten(s.Sent()) + s.partial == c.rows[..s.read]
    && Packed(s.Sent(), c.size)
    && s.sent == |Flatten(s.inserted)|
    && |s.chan| <= CHANNEL_CAPACITY
    && ProducerInv(c, s)
    && ConsumerInv(c, s)
  }

  ghost predicate ProducerInv<T>(c: Config<T>, s: State<T>) {
    && (!s.Closed() || s.partial != [] ==> AllFull(s.Sent(), c.size))
    && match s.producer
       case Reading => |s.partial| < c.size
       case Sending => |s.partial| == c.size
       case Closing => 0 < |s.partial| < c.size && s.read == |c.rows| && c.complete
       case ProducerReturned(r) => ProducerResultInv(c, s, r)
       case ProducerExited(r) => ProducerResultInv(c, s, r) && (r.Some? ==> s.first.Some?)
  }

  ghost predicate ProducerResultInv<T>(c: Config<T>, s: State<T>, r: Option<Error>) {
    && |s.partial| <= c.size
    && (r.None? ==> s.partial == [] && s.read == |c.rows| && c.complete)
  }

  ghost predicate ConsumerInv<T>(c: Config<T>, s: State<T>) {
    match s.consumer
    case Receiving => s.inflight == []
    case Inserting => s.inflight != []
    case ConsumerReturned(r) => r.None? ==> s.inflight == [] && s.chan == [] && s.Closed()
    case ConsumerExited(r) =>
      if r.None? then s.inflight == [] && s.chan == [] && s.Closed() else s.first.Some?
  }

  lemma InvInit<T>(c: Config<T>)
    requires c.size >= 1
    ensures Inv(c, Init())
  {
  }

  lemma InvStep<T>(c: Config<T>, s: State<T>, a: Action)
    requires c.size >= 1 && Inv(c, s) && Enabled(c, s, a)
    ensures Inv(c, Apply(c, s, a))
  {
    match a {
      case ReadRow => ReadKeepsInv(c, s);
      case SendBatch => SendKeepsInv(c, s);
      case ReceiveBatch => ReceiveKeepsInv(c, s);
      case InsertSucceeds => InsertKeepsInv(c, s);
      case ReadFails => ReturnKeepsInv(c, s, a);
      case EndOfRows => ReturnKeepsInv(c, s, a);
      case SendCanceled => ReturnKeepsInv(c, s, a);
      case _ => ControlKeepsInv(c, s, a);
    }
  }

  lemma ReturnKeepsInv<T>(c: Config<T>, s: State<T>, a: Action)
    requires c.size >= 1 && Inv(c, s) && Enabled(c, s, a)
    requires a.ReadFails? || a.EndOfRows? || a.SendCanceled?
    ensures Inv(c, Apply(c, s, a))
  {
    assert Apply(c, s, a).Sent() == s.Sent();
  }

  lemma ControlKeepsInv<T>(c: Config<T>, s: State<T>, a: Action)
    requires c.size >= 1 && Inv(c, s) && Enabled(c, s, a)
    requires a.ChannelDrained? || a.InsertFails? || a.ReportProducer? || a.ReportConsumer? || a.CancelParent?
    ensures Inv(c, Apply(c, s, a))
  {
    assert Apply(c, s, a).Sent() == s.Sent();
  }

  lemma InsertKeepsInv<T>(c: Config<T>, s: State<T>)
    requires c.size >= 1 && Inv(c, s) && Enabled(c, s, InsertSucceeds)
    ensures Inv(c, Apply(c, s, InsertSucceeds))
  {
    assert Apply(c, s, InsertSucceeds).Sent() == s.Sent();
    FlattenSnoc(s.inserted, s.inflight);
  }

  lemma ReadKeepsInv<T>(c: Config<T>, s: State<T>)
    requires c.size >= 1 && Inv(c, s) && Enabled(c, s, ReadRow)
    ensures Inv(c, Apply(c, s, ReadRow))
  {
    var t := Apply(c, s, ReadRow);
    var sent, row := Flatten(s.Sent()), c.rows[s.read];
    assert t.Sent() == s.Sent();
    assert c.rows[..t.read] == c.rows[..s.read] + [row];
    assert sent + (s.partial + [row]) == (sent + s.partial) + [row];
  }

  lemma SendKeepsInv<T>(c: Config<T>, s: State<T>)
    requires c.size >= 1 && Inv(c, s) && Enabled(c, s, SendBatch)
    ensures Inv(c, Apply(c, s, SendBatch))
  {
    var t := Apply(c, s, SendBatch);
    assert t.Sent() == s.Sent() + [s.partial];
    FlattenSnoc(s.Sent(), s.partial);
    PackedSnoc(s.Sent(), s.partial, c.size);
  }

  lemma ReceiveKeepsInv<T>(c: Config<T>, s: State<T>)
    requires c.size >= 1 && Inv(c, s) && Enabled(c, s, ReceiveBatch)
    ensures Inv(c, Apply(c, s, ReceiveBatch))
  {
    assert s.Sent()[|s.inserted|] == s.chan[0];
    assert Apply(c, s, ReceiveBatch).Sent() == s.Sent();
  }

  /** The batches made so far, wherever they are, are exactly the rows read so
      far cut into batches, in order. */
  lemma BatchesAreChunksOfPrefix<T>(c: Config<T>, s: State<T>)
    requires c.size >= 1 && Inv(c, s)
    ensures s.Batches() == Chunks(c.rows[..s.read], c.size)
    ensures Flatten(s.inserted) + s.inflight + Flatten(s.chan) + s.partial == c.rows[..s.read]
  {
    FlattenSplit(s);
    BatchesArePacked(c, s);
    PackedIsChunks(s.Batches(), c.size);
  }

  lemma BatchesArePacked<T>(c: Config<T>, s: State<T>)
    requires c.size >= 1 && Inv(c, s)
    ensures Packed(s.Batches(), c.size) && Flatten(s.Batches()) == c.rows[..s.read]
  {
    if s.partial == [] {
      assert s.Batches() == s.Sent();
    } else {
      FlattenSnoc(s.Sent(), s.partial);
      PackedSnoc(s.Sent(), s.partial, c.size);
    }
  }

  lemma PackedSnoc<T>(batches: seq<seq<T>>, last: seq<T>, size: nat)
    requires AllFull(batches, size) && 0 < |last| <= size
    ensures Packed(batches + [last], size)
  {
  }

  lemma FlattenSplit<T>(s: State<T>)
    ensures Flatten(s.Sent()) == Flatten(s.inserted) + s.inflight + Flatten(s.chan)
  {
    FlattenConcat(s.inserted + Piece(s.inflight), s.chan);
    FlattenConcat(s.inserted, Piece(s.inflight));
    assert Flatten([s.inflight]) == s.inflight;
  }

  // ----- Runs -----

  /** run lists the states of an execution from the initial one. */
  ghost predicate IsRun<T>(c: Config<T>, run: seq<State<T>>) {
    && run != []
    && run[0] == Init()
    && forall i :: 0 <= i < |run| - 1 ==> Step(c, run[i], run[i + 1])
  }

  ghost predicate Step<T>(c: Config<T>, s: State<T>, t: State<T>) {
    exists a :: Enabled(c, s, a) && t == Apply(c, s, a)
  }

  lemma {:induction false} RunKeepsInv<T>(c: Config<T>, run: seq<State<T>>)
    requires c.size >= 1 && IsRun(c, run)
    ensures Inv(c, run[|run| - 1])
    decreases |run|
  {
    if |run| == 1 {
      InvInit(c);
    } else {
      var before := run[..|run| - 1];
      RunKeepsInv(c, before);
      assert Step(c, run[|before| - 1], run[|before|]);
      var a :| Enabled(c, before[|before| - 1], a) && run[|before|] == Apply(c, before[|before| - 1], a);
      InvStep(c, before[|before| - 1], a);
    }
  }

  /** Safety over every run, whatever fails and however it interleaves. */
  lemma EveryRunIsOrderedAndBounded<T>(c: Config<T>, run: seq<State<T>>)
    requires c.size >= 1 && IsRun(c, run)
    ensures var s := run[|run| - 1];
      && s.read <= |c.rows|
      && s.Batches() == Chunks(c.rows[..s.read], c.size)
      && Flatten(s.inserted) + s.inflight + Flatten(s.chan) + s.partial == c.rows[..s.read]
      && |s.chan| + |Piece(s.inflight)| + |Piece(s.partial)| <= 4
  {
    RunKeepsInv(c, run);
    BatchesAreChunksOfPrefix(c, run[|run| - 1]);
  }

  /** group.Wait returns nil only if every row was inserted, in order, in the
      batches of Chunks, and the source ended without an error. */
  lemma SuccessInsertsEverything<T>(c: Config<T>, s: State<T>)
    requires c.size >= 1 && Inv(c, s) && s.Final() && s.first.None?
    ensures c.complete && s.inserted == Chunks(c.rows, c.size) && Flatten(s.inserted) == c.rows
  {
    BatchesAreChunksOfPrefix(c, s);
    assert c.rows[..|c.rows|] == c.rows;
    assert s.Batches() == s.inserted;
    ChunksArePacked(c.rows, c.size);
  }

  /** After a failure the table holds a prefix of the rows, whether or not the
      server kept the batch whose insert failed. */
  lemma FailureLeavesPrefix<T>(c: Config<T>, s: State<T>)
    requires c.size >= 1 && Inv(c, s)
    ensures Flatten(s.inserted) <= c.rows && Flatten(s.inserted) + s.inflight <= c.rows
  {
    BatchesAreChunksOfPrefix(c, s);
    FirstPartsArePrefixes(Flatten(s.inserted), s.inflight, Flatten(s.chan), s.partial, c.rows);
  }

  lemma FirstPartsArePrefixes<T>(w: seq<T>, x: seq<T>, y: seq<T>, z: seq<T>, all: seq<T>)
    requires w + x + y + z <= all
    ensures w <= all && w + x <= all
  {
    assert w == all[..|w|];
    assert w + x == all[..|w + x|];
  }

  // ----- Which error is reported -----

  /** first is the result of a goroutine that returned, never a cancellation that
      the caller did not ask for. */
  ghost predicate ErrorInv<T>(s: State<T>) {
    && (s.first.Some? ==> s.producer == ProducerExited(s.first) || s.consumer == ConsumerExited(s.first))
    && (s.first == Some(Error.Canceled) ==> s.parentDone)
    && (s.Closed() && s.producer.result.Some? ==> s.producer.result != Some(InsertFailed))
    && (s.Closed() && s.producer.result == Some(Error.Canceled) ==> s.Canceled())
    && (s.consumer.ConsumerReturned? || s.consumer.ConsumerExited? ==>
          s.consumer.result.Some? ==> s.consumer.result == Some(InsertFailed) && s.inflight != [])
  }

  lemma ErrorInvStep<T>(c: Config<T>, s: State<T>, a: Action)
    requires Inv(c, s) && ErrorInv(s) && Enabled(c, s, a)
    ensures ErrorInv(Apply(c, s, a))
  {
  }

  /** The first error stays. */
  lemma FirstErrorStays<T>(c: Config<T>, s: State<T>, a: Action)
    requires Enabled(c, s, a) && s.first.Some?
    ensures Apply(c, s, a).first == s.first
  {
  }

  /** In every run the first error reported is the one group.Wait returns; it is a
      cancellation only if the caller canceled, and a failed insert only if there
      is a batch whose insert failed. */
  lemma {:induction false} EveryRunReportsTheFirstError<T>(c: Config<T>, run: seq<State<T>>, i: nat)
    requires c.size >= 1 && IsRun(c, run) && i < |run|
    ensures var s := run[|run| - 1];
      && ErrorInv(s)
      && (run[i].first.Some? ==> s.first == run[i].first)
      && (s.first == Some(Error.Canceled) ==> s.parentDone)
      && (s.first == Some(InsertFailed) ==> s.inflight != [])
    decreases |run|
  {
    if |run| > 1 {
      var before := run[..|run| - 1];
      var n := |before| - 1;
      RunKeepsInv(c, before);
      EveryRunReportsTheFirstError(c, before, if i < |before| then i else n);
      assert Step(c, run[n], run[n + 1]);
      var a :| Enabled(c, before[n], a) && run[n + 1] == Apply(c, before[n], a);
      ErrorInvStep(c, before[n], a);
      if before[n].first.Some? {
        FirstErrorStays(c, before[n], a);
      }
    }
  }

  lemma RunSnoc<T>(c: Config<T>, run: seq<State<T>>, a: Action) returns (longer: seq<State<T>>)
    requires IsRun(c, run) && Enabled(c, run[|run| - 1], a)
    ensures IsRun(c, longer) && longer[|longer| - 1] == Apply(c, run[|run| - 1], a)
  {
    longer := run + [Apply(c, run[|run| - 1], a)];
    forall i | 0 <= i < |longer| - 1
      ensures Step(c, longer[i], longer[i + 1])
    {
      if i < |run| - 1 {
        assert Step(c, run[i], run[i + 1]);
      }
    }
  }

  /** Each error can be the one reported. */
  lemma {:induction false} EachErrorIsReported<T>(c: Config<T>, e: Error) returns (run: seq<State<T>>)
    requires c.size == 1 && c.rows != []
    ensures IsRun(c, run) && run[|run| - 1].first == Some(e)
  {
    run := [Init()];
    match e {
      case ReadFailed =>
        run := RunSnoc(c, run, ReadFails);
        run := RunSnoc(c, run, ReportProducer);
      case Canceled =>
        run := RunSnoc(c, run, ReadRow);
        run := RunSnoc(c, run, CancelParent);
        run := RunSnoc(c, run, SendCanceled);
        run := RunSnoc(c, run, ReportProducer);
      case InsertFailed =>
        run := RunSnoc(c, run, ReadRow);
        run := RunSnoc(c, run, SendBatch);
        run := RunSnoc(c, run, ReceiveBatch);
        run := RunSnoc(c, run, InsertFails);
        run := RunSnoc(c, run, ReportConsumer);
    }
  }

  /** The bound of four live batches is reached. */
  lemma {:induction false} FourBatchesAreLive<T>(c: Config<T>) returns (run: seq<State<T>>)
    requires c.size == 1 && |c.rows| >= 4
    ensures IsRun(c, run)
    ensures var s := run[|run| - 1]; |s.chan| == 2 && s.inflight == [c.rows[0]] && s.partial == [c.rows[3]]
  {
    run := [Init()];
    run := RunSnoc(c, run, ReadRow);
    run := RunSnoc(c, run, SendBatch);
    run := RunSnoc(c, run, ReceiveBatch);
    run := RunSnoc(c, run, ReadRow);
    run := RunSnoc(c, run, SendBatch);
    run := RunSnoc(c, run, ReadRow);
    run := RunSnoc(c, run, SendBatch);
    run := RunSnoc(c, run, ReadRow);
  }

  // ----- No deadlock, and every run ends -----

  /** The goroutine that moves next when nothing fails. */
  function Progress<T>(c: Config<T>, s: State<T>): Action {
    if s.producer.ProducerReturned? then ReportProducer
    else if s.consumer.ConsumerReturned? then ReportConsumer
    else if s.consumer.Inserting? then InsertSucceeds
    else if s.producer.Reading? then
      if s.read < |c.rows| then ReadRow else if c.complete then EndOfRows else ReadFails
    else if s.consumer.Receiving? && s.chan != [] then ReceiveBatch
    else if s.consumer.Receiving? && s.Closed() then ChannelDrained
    else if |s.chan| < CHANNEL_CAPACITY then SendBatch
    else SendCanceled
  }

  /** No reachable state is stuck before both goroutines have returned: one of
      them can move without the caller canceling, and without a failure other
      than the source's own. In particular a producer blocked on a full channel
      whose consumer has failed sees the cancellation. */
  lemma NoDeadlock<T>(c: Config<T>, s: State<T>)
    requires c.size >= 1 && Inv(c, s) && !s.Final()
    ensures var a := Progress(c, s);
      && Enabled(c, s, a)
      && a != CancelParent && a != InsertFails
      && (a == ReadFails ==> !c.complete && s.read == |c.rows|)
  {
  }

  function ProducerRank(p: Producer): nat {
    match p
    case Reading => 3
    case Sending => 3
    case Closing => 2
    case ProducerReturned(_) => 1
    case ProducerExited(_) => 0
  }

  function ConsumerRank(q: Consumer): nat {
    match q
    case Inserting => 3
    case Receiving => 2
    case ConsumerReturned(_) => 1
    case ConsumerExited(_) => 0
  }

  /** A bound on the steps left. */
  function Measure<T>(c: Config<T>, s: State<T>): nat
    requires s.read <= |c.rows|
  {
    4 * (|c.rows| - s.read) + (if s.partial == [] then 0 else 3) + 2 * |s.chan|
    + ProducerRank(s.producer) + ConsumerRank(s.consumer) + (if s.parentDone then 0 else 1)
  }

  lemma StepDecreasesMeasure<T>(c: Config<T>, s: State<T>, a: Action)
    requires c.size >= 1 && s.read <= |c.rows| && (s.producer.Sending? || s.producer.Closing? ==> s.partial != [])
    requires Enabled(c, s, a)
    ensures Apply(c, s, a).read <= |c.rows| && Measure(c, Apply(c, s, a)) < Measure(c, s)
  {
    match a {
      case ReadRow =>
        assert Measure(c, Apply(c, s, a)) <= Measure(c, s) - 1;
      case SendBatch =>
        assert |Apply(c, s, a).chan| == |s.chan| + 1;
      case ReceiveBatch =>
        assert |Apply(c, s, a).chan| == |s.chan| - 1;
      case _ =>
    }
  }

  /** No run takes more than four steps a row and six more. */
  lemma {:induction false} EveryRunEnds<T>(c: Config<T>, run: seq<State<T>>)
    requires c.size >= 1 && IsRun(c, run)
    ensures run[|run| - 1].read <= |c.rows|
    ensures |run| - 1 + Measure(c, run[|run| - 1]) <= 4 * |c.rows| + 6
    decreases |run|
  {
    RunKeepsInv(c, run);
    if |run| > 1 {
      var before := run[..|run| - 1];
      EveryRunEnds(c, before);
      RunKeepsInv(c, before);
      assert Step(c, run[|before| - 1], run[|before|]);
      var a :| Enabled(c, before[|before| - 1], a) && run[|before|] == Apply(c, before[|before| - 1], a);
      StepDecreasesMeasure(c, before[|before| - 1], a);
    }
  }

  /** Nothing has gone wrong so far. */
  predicate Clean<T>(s: State<T>) {
    && s.first.None? && !s.parentDone
    && (s.Closed() ==> s.producer.result.None?)
    && (s.consumer.ConsumerReturned? || s.consumer.ConsumerExited? ==> s.consumer.result.None?)
  }

  /** What the pipeline does not decide itself. */
  predicate External(a: Action) {
    a == ReadFails || a == InsertFails || a == CancelParent
  }

  ghost predicate IsQuietRun<T>(c: Config<T>, run: seq<State<T>>) {
    && run != []
    && run[0] == Init()
    && forall i :: 0 <= i < |run| - 1 ==> QuietStep(c, run[i], run[i + 1])
  }

  ghost predicate QuietStep<T>(c: Config<T>, s: State<T>, t: State<T>) {
    exists a :: Enabled(c, s, a) && !External(a) && t == Apply(c, s, a)
  }

  /** The pipeline makes no error of its own: under every interleaving without
      an outside failure or cancellation nothing goes wrong, and when both
      goroutines have returned every row is inserted. */
  lemma {:induction false} QuietRunsSucceed<T>(c: Config<T>, run: seq<State<T>>)
    requires c.size >= 1 && IsQuietRun(c, run)
    ensures var s := run[|run| - 1];
      && Inv(c, s) && Clean(s)
      && (s.Final() ==> s.inserted == Chunks(c.rows, c.size) && Flatten(s.inserted) == c.rows)
    decreases |run|
  {
    var s := run[|run| - 1];
    if |run| == 1 {
      InvInit(c);
    } else {
      var before := run[..|run| - 1];
      QuietRunsSucceed(c, before);
      assert QuietStep(c, run[|before| - 1], run[|before|]);
      var a :| Enabled(c, before[|before| - 1], a) && !External(a) && s == Apply(c, before[|before| - 1], a);
      InvStep(c, before[|before| - 1], a);
      QuietStaysClean(c, before[|before| - 1], a);
    }
    if s.Final() {
      SuccessInsertsEverything(c, s);
    }
  }

  lemma QuietStaysClean<T>(c: Config<T>, s: State<T>, a: Action)
    requires Clean(s) && Enabled(c, s, a) && !External(a)
    ensures Clean(Apply(c, s, a))
  {
  }

  /** A scheduler: given how many steps were taken and the state, the action
      that happens next. It decides interleaving, failures and cancellation. */
  type Scheduler<!T> = (nat, State<T>) -> Action

  ghost predicate Admissible<T(!new)>(c: Config<T>, schedule: Scheduler<T>) {
    forall n: nat, s: State<T> :: Inv(c, s) && !s.Final() ==> Enabled(c, s, schedule(n, s))
  }

  /** Nothing outside the pipeline fails or cancels it. */
  ghost predicate Quiet<T(!new)>(c: Config<T>, schedule: Scheduler<T>) {
    forall n: nat, s: State<T> :: Inv(c, s) && Clean(s) && !s.Final() ==> !External(schedule(n, s))
  }

  /** The scheduler of every transfer asks only for possible steps. */
  ghost predicate AlwaysAdmissible<T(!new)>(schedule: Config<T> -> Scheduler<T>) {
    forall c: Config<T> :: c.size >= 1 ==> Admissible(c, schedule(c))
  }

  /** Nothing outside fails or cancels a transfer whose source is complete. */
  ghost predicate AlwaysQuiet<T(!new)>(schedule: Config<T> -> Scheduler<T>) {
    forall c: Config<T> :: c.size >= 1 && c.complete ==> Quiet(c, schedule(c))
  }

  /** The caller never cancels. */
  ghost predicate NeverCancels<T(!new)>(c: Config<T>, schedule: Scheduler<T>) {
    forall n: nat, s: State<T> :: Inv(c, s) && !s.Final() ==> !schedule(n, s).CancelParent?
  }

  ghost predicate NobodyCancels<T(!new)>(schedule: Config<T> -> Scheduler<T>) {
    forall c: Config<T> :: c.size >= 1 ==> NeverCancels(c, schedule(c))
  }

  /** There are such schedulers: this one lets nothing fail but the source. */
  lemma ProgressIsAdmissible<T(!new)>(c: Config<T>)
    requires c.size >= 1
    ensures Admissible(c, (n: nat, s: State<T>) => Progress(c, s))
    ensures c.complete ==> Quiet(c, (n: nat, s: State<T>) => Progress(c, s))
  {
    forall s: State<T> | Inv(c, s) && !s.Final()
      ensures Enabled(c, s, Progress(c, s))
      ensures c.complete ==> !External(Progress(c, s))
    {
      NoDeadlock(c, s);
    }
  }

  /** What holds while the scheduler drives the pipeline. */
  ghost predicate Driven<T(!new)>(c: Config<T>, schedule: Scheduler<T>, s: State<T>) {
    && Inv(c, s) && ErrorInv(s)
    && (Quiet(c, schedule) ==> Clean(s))
    && (NeverCancels(c, schedule) ==> !s.parentDone)
  }

  lemma DrivenStep<T(!new)>(c: Config<T>, schedule: Scheduler<T>, s: State<T>, n: nat)
    requires c.size >= 1 && Admissible(c, schedule) && Driven(c, schedule, s) && !s.Final()
    ensures Enabled(c, s, schedule(n, s)) && Driven(c, schedule, Apply(c, s, schedule(n, s)))
    ensures s.read <= |c.rows| && Apply(c, s, schedule(n, s)).read <= |c.rows|
    ensures Measure(c, Apply(c, s, schedule(n, s))) < Measure(c, s)
  {
    var a := schedule(n, s);
    InvStep(c, s, a);
    StepDecreasesMeasure(c, s, a);
    ErrorInvStep(c, s, a);
    if Quiet(c, schedule) {
      QuietStaysClean(c, s, a);
    }
  }

  /** Runs the pipeline under any scheduler to the result of group.Wait, which is
      nil whenever nothing outside fails, and never a cancellation that the caller
      did not ask for. */
  method Execute<T(!new)>(c: Config<T>, schedule: Scheduler<T>) returns (s: State<T>)
    requires c.size >= 1 && Admissible(c, schedule)
    ensures Inv(c, s) && s.Final()
    ensures s.first.None? ==>
      c.complete && s.inserted == Chunks(c.rows, c.size) && Flatten(s.inserted) == c.rows && s.inflight == []
    ensures Flatten(s.inserted) + s.inflight <= c.rows
    ensures Quiet(c, schedule) ==> s.first.None?
    ensures s.first == Some(Error.Canceled) ==> !NeverCancels(c, schedule)
    ensures s.first == Some(InsertFailed) ==> s.inflight != []
  {
    s := Init();
    InvInit(c);
    var n: nat := 0;
    while !s.Final()
      invariant Driven(c, schedule, s)
      decreases if s.read <= |c.rows| then Measure(c, s) else 0
    {
      DrivenStep(c, schedule, s, n);
      s := Apply(c, s, schedule(n, s));
      n := n + 1;
    }
    FailureLeavesPrefix(c, s);
    if s.first.None? {
      SuccessInsertsEverything(c, s);
    }
  }
}
