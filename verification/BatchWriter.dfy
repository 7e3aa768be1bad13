/**
 The batching writer of the v1 ingester. Preparing a batch, appending to it and
 sending it may each fail; an Outcome says which of them succeed.
 */
module BatchWriter {
  import opened Common

  /** batch is None until a batch is prepared. */
  datatype Writer<T> = Writer(batch: Option<seq<T>>, total: nat)
  {
    function Pending(): seq<T> {
      if batch.None? then [] else batch.value
    }
  }

  datatype Outcome = Outcome(prepares: bool, appends: bool, sends: bool)

  /** taken: the row entered the batch. sent: the rows the server received. */
  datatype Effect<T> = Effect(writer: Writer<T>, taken: bool, sent: seq<T>, ok: bool)

  function FlushOf<T>(w: Writer<T>, sends: bool): Effect<T> {
    if w.Pending() == [] then Effect(w, false, [], true)
    else if !sends then Effect(w, false, [], false)
    else Effect(Writer(None, w.total), false, w.Pending(), true)
  }

  function AppendOf<T>(w: Writer<T>, row: T, size: nat, o: Outcome): Effect<T> {
    if w.batch.None? && !o.prepares then Effect(w, false, [], false)
    else if !o.appends then Effect(w.(batch := Some(w.Pending())), false, [], false)
    else
      var full := Writer(Some(w.Pending() + [row]), w.total + 1);
      if |full.Pending()| >= size then FlushOf(full, o.sends).(taken := true)
      else Effect(full, true, [], true)
  }

  /** No row is lost, repeated or reordered by an append, whatever fails. */
  lemma AppendConserves<T>(w: Writer<T>, row: T, size: nat, o: Outcome)
    ensures var e := AppendOf(w, row, size, o);
      && e.sent + e.writer.Pending() == w.Pending() + (if e.taken then [row] else [])
      && (e.ok ==> e.taken)
      && e.writer.total == w.total + (if e.taken then 1 else 0)
      && (size >= 1 && e.ok ==> |e.writer.Pending()| < size)
      && (e.sent != [] ==> e.ok && e.writer.batch.None?)
  {
  }

  lemma FlushConserves<T>(w: Writer<T>, sends: bool)
    ensures var e := FlushOf(w, sends);
      && e.sent + e.writer.Pending() == w.Pending()
      && (e.ok ==> e.writer.Pending() == [])
      && (e.ok <==> sends || w.Pending() == [])
      && !e.taken && e.writer.total == w.total
  {
  }

  /** A writer that never fails is given xs: the writer at the end and the
      batches it sent meanwhile. */
  function Fed<T>(w: Writer<T>, xs: seq<T>, size: nat): (Writer<T>, seq<seq<T>>)
    decreases |xs|
  {
    if xs == [] then (w, [])
    else
      var e := AppendOf(w, xs[0], size, Outcome(true, true, true));
      var (last, batches) := Fed(e.writer, xs[1..], size);
      (last, (if e.sent == [] then [] else [e.sent]) + batches)
  }

  /** Feeding a stream sends it in order, in whole batches, and keeps the
      beginning of the next batch for the flush. */
  lemma {:induction false} FedSendsWholeBatches<T>(w: Writer<T>, xs: seq<T>, size: nat)
    requires size >= 1 && |w.Pending()| < size
    ensures var (last, batches) := Fed(w, xs, size);
      && Flatten(batches) + last.Pending() == w.Pending() + xs
      && (forall b :: b in batches ==> |b| == size)
      && |last.Pending()| < size
      && last.total == w.total + |xs|
    decreases |xs|
  {
    if xs != [] {
      var e := AppendOf(w, xs[0], size, Outcome(true, true, true));
      var (last, batches) := Fed(e.writer, xs[1..], size);
      AppendSendsWhole(w, xs[0], size);
      FedSendsWholeBatches(e.writer, xs[1..], size);
      FlattenFront(e.sent, batches);
      Regroup(e.sent, Flatten(batches), last.Pending(), e.writer.Pending(), xs[1..], w.Pending() + [xs[0]]);
      FrontFirst(w.Pending(), xs);
    }
  }

  lemma FlattenFront<T>(first: seq<T>, batches: seq<seq<T>>)
    ensures Flatten((if first == [] then [] else [first]) + batches) == first + Flatten(batches)
  {
    if first == [] {
      assert [] + batches == batches;
    } else {
      assert ([first] + batches)[1..] == batches;
    }
  }

  lemma FrontFirst<T>(front: seq<T>, xs: seq<T>)
    requires xs != []
    ensures (front + [xs[0]]) + xs[1..] == front + xs
  {
  }

  lemma AppendSendsWhole<T>(w: Writer<T>, row: T, size: nat)
    requires size >= 1 && |w.Pending()| < size
    ensures var e := AppendOf(w, row, size, Outcome(true, true, true));
      && e.sent + e.writer.Pending() == w.Pending() + [row]
      && |e.writer.Pending()| < size && (|e.sent| == 0 || |e.sent| == size)
      && e.writer.total == w.total + 1
  {
  }

  lemma Regroup<T>(a: seq<T>, b: seq<T>, c: seq<T>, d: seq<T>, e: seq<T>, f: seq<T>)
    requires b + c == d + e && a + d == f
    ensures (a + b) + c == f + e
  {
    assert (a + b) + c == a + (b + c);
    assert (a + d) + e == a + (d + e);
  }

  /** The rows a ClickHouse table received. */
  class Table<T> {
    var rows: seq<T>

    constructor ()
      ensures rows == []
    {
      rows := [];
    }
  }

  class ClickHouseBatchWriter<T> {
    const table: Table<T>
    const batchSize: nat
    var batch: Option<seq<T>>
    var rows: nat
    var total: nat

    constructor (table: Table<T>, batchSize: nat)
      ensures Valid() && this.table == table && this.batchSize == batchSize
      ensures State() == Writer(None, 0)
    {
      this.table := table;
      this.batchSize := batchSize;
      batch, rows, total := None, 0, 0;
    }

    ghost predicate Valid()
      reads this
    {
      rows == |State().Pending()|
    }

    function State(): Writer<T>
      reads this
    {
      Writer(batch, total)
    }

    method Append(row: T, o: Outcome) returns (ok: bool)
      requires Valid()
      modifies this, table
      ensures Valid()
      ensures var e := AppendOf(old(State()), row, batchSize, o);
        State() == e.writer && ok == e.ok && table.rows == old(table.rows) + e.sent
    {
      if batch.None? {
        if !o.prepares {
          return false;
        }
        batch := Some([]);
      }
      if !o.appends {
        return false;
      }
      batch := Some(batch.value + [row]);
      rows := rows + 1;
      total := total + 1;
      if rows >= batchSize {
        ok := Flush(o.sends);
      } else {
        ok := true;
      }
    }

    method Flush(sends: bool) returns (ok: bool)
      requires Valid()
      modifies this, table
      ensures Valid()
      ensures var e := FlushOf(old(State()), sends);
        State() == e.writer && ok == e.ok && table.rows == old(table.rows) + e.sent
    {
      if batch.None? || rows == 0 {
        return true;
      }
      if !sends {
        return false;
      }
      table.rows := table.rows + batch.value;
      batch, rows := None, 0;
      return true;
    }
  }
}
