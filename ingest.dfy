/**
 * `processCSV` of Src/index.ts as a state machine: the `data` handler
 * (`OnRow`), the `end` handler (`OnEnd`) and the stream that feeds one to the
 * other (`ProcessCSV`), and the read stream's `error` handler
 * (`OnReadError`). The dictionary of buckets and the header flag are fields
 * updated in place; `halted` stands for `parser.end()`, `inserts` for the
 * calls to `db.run` that completed (a call that throws is made but leaves no
 * insert) and `messages` for the console.
 */
module Ingest {

  import opened Wrappers
  import Router
  import opened IngestSpec

  class Ingestion {
    var data: Buckets
    var isHeaderChecked: bool
    var halted: bool
    var inserts: seq<InsertRow>
    var messages: seq<Message>

    /** The rows the data handler has bucketed so far, in arrival order. */
    ghost var accepted: seq<Row>

    ghost predicate Valid()
      reads this`data, this`isHeaderChecked, this`accepted
    {
      data == Bucketed(accepted)
      && (isHeaderChecked <==> accepted != [])
      && (accepted != [] ==> HasExpectedHeaders(accepted[0]))
    }

    constructor ()
      ensures Valid()
      ensures data == map[] && !isHeaderChecked && !halted
      ensures inserts == [] && messages == [] && accepted == []
    {
      data := map[];
      isHeaderChecked := false;
      halted := false;
      inserts := [];
      messages := [];
      accepted := [];
    }

    /**
     * The `data` handler. Until a row has passed the header check, a row
     * without the four expected headers halts the parser and is dropped;
     * once one has passed, no later row is checked again.
     */
    method OnRow(row: Row)
      requires Valid()
      modifies this`data, this`isHeaderChecked, this`halted, this`messages, this`accepted
      ensures Valid()
      ensures inserts == old(inserts)
      ensures if !old(isHeaderChecked) && !HasExpectedHeaders(row) then
          halted && !isHeaderChecked && data == old(data) && accepted == old(accepted)
          && messages == old(messages) + [StructureMismatch]
        else
          isHeaderChecked && halted == old(halted) && messages == old(messages)
          && accepted == old(accepted) + [row] && data == AddToBucket(old(data), row)
    {
      if !isHeaderChecked {
        if !HasExpectedHeaders(row) {
          messages := messages + [StructureMismatch];
          halted := true;
          return;
        }
        isHeaderChecked := true;
      }
      var key := BucketKey(row);
      ghost var before := data;
      PushToBucket(before, row);
      if key !in data {
        data := data[key := []];
      }
      data := data[key := data[key] + [ToRecord(row)]];
      assert data == AddToBucket(before, row);
      BucketedSnoc(accepted, row);
      assert accepted != [] ==> (accepted + [row])[0] == accepted[0];
      accepted := accepted + [row];
    }

    /**
     * The parser delivering the rows of a fresh ingestion to the `data`
     * handler, one at a time in file order, until it is ended.
     */
    method Feed(rows: seq<Row>)
      requires Valid() && accepted == [] && !halted && inserts == [] && messages == []
      modifies this`data, this`isHeaderChecked, this`halted, this`messages, this`accepted
      ensures Valid() && inserts == [] && accepted == AcceptedRows(rows)
      ensures messages == if rows != [] && !HasExpectedHeaders(rows[0]) then [StructureMismatch] else []
      ensures halted <==> rows != [] && !HasExpectedHeaders(rows[0])
    {
      var i := 0;
      while i < |rows| && !halted
        invariant 0 <= i <= |rows| && Valid() && inserts == []
        invariant !halted ==> accepted == rows[..i] && messages == []
        invariant halted ==>
          i == 1 && !HasExpectedHeaders(rows[0]) && accepted == [] && messages == [StructureMismatch]
      {
        OnRow(rows[i]);
        assert rows[..i + 1] == rows[..i] + [rows[i]];
        i := i + 1;
      }
      if !halted {
        assert rows[..i] == rows;
      }
    }

    /** The read stream's `error` handler: the failure is logged and the parser ended. */
    method OnReadError()
      requires Valid()
      modifies this`messages, this`halted
      ensures Valid() && halted
      ensures messages == old(messages) + [ReadFailed]
    {
      messages := messages + [ReadFailed];
      halted := true;
    }

    /**
     * The `end` handler. Buckets are visited in an arbitrary order, returned
     * as `visited`; each resolved bucket is inserted record by record and its
     * count logged; the first insert that throws ends the whole loop, and the
     * catch logs the error. Whether an insert throws may depend on all the
     * inserts completed before it.
     */
    method OnEnd(throws: RunFails) returns (ghost visited: seq<string>)
      requires Valid()
      modifies this`inserts, this`messages
      ensures Valid() && Enumerates(visited, data)
      ensures inserts == old(inserts) + FlushAll(data, visited, throws, old(inserts)).inserts
      ensures messages == old(messages) + FlushAll(data, visited, throws, old(inserts)).messages
    {
      var buckets := data;
      var remaining := buckets.Keys;
      var aborted := false;
      visited := [];
      while remaining != {} && !aborted
        invariant Splits(buckets.Keys, visited, remaining)
        invariant aborted == FlushAll(buckets, visited, throws, old(inserts)).aborted
        invariant inserts == old(inserts) + FlushAll(buckets, visited, throws, old(inserts)).inserts
        invariant messages == old(messages) + FlushAll(buckets, visited, throws, old(inserts)).messages
        decreases remaining
      {
        var key :| key in remaining;
        SplitsMove(buckets.Keys, visited, remaining, key);
        remaining := remaining - {key};
        VisitStep(buckets, visited, key, throws, old(inserts), old(messages));
        visited := visited + [key];
        aborted := InsertBucket(key, throws);
      }
      if aborted {
        visited := CompleteOrder(buckets, visited, remaining, throws, old(inserts));
      } else {
        SplitsDone(buckets, visited);
      }
    }

    /**
     * One pass of the end handler's outer loop: resolve the key; for a known
     * table insert the records in order, counting them, until one throws.
     */
    method InsertBucket(key: string, throws: RunFails) returns (aborted: bool)
      requires key in data
      modifies this`inserts, this`messages
      ensures aborted == FlushBucket(data, key, throws, old(inserts)).aborted
      ensures inserts == old(inserts) + FlushBucket(data, key, throws, old(inserts)).inserts
      ensures messages == old(messages) + FlushBucket(data, key, throws, old(inserts)).messages
    {
      aborted := false;
      var table := TableFor(key);
      if table.Some? {
        var t := table.value;
        var records := data[key];
        ghost var calls := Stamp(t, records);
        var count := 0;
        var i := 0;
        while i < |records|
          invariant 0 <= i <= |records| && count == i && !aborted
          invariant inserts == old(inserts) + calls[..i]
          invariant forall j :: 0 <= j < i ==> !ThrowsAt(throws, old(inserts), calls, j)
          invariant messages == old(messages)
        {
          var insert := InsertOf(t, records[i]);
          if throws(inserts, insert) {
            aborted := true;
            break;
          }
          assert calls[..i + 1] == calls[..i] + [insert];
          inserts := inserts + [insert];
          count := count + 1;
          i := i + 1;
        }
        FirstThrowUnique(old(inserts), calls, i, throws);
        if aborted {
          messages := messages + [ProcessingError];
        } else {
          assert calls[..i] == calls;
          messages := messages + [Inserted(count, t)];
        }
      }
    }
  }

  /**
   * One pass of the end handler's loop before any throw, on top of the
   * inserts and lines that were there before the end phase.
   */
  lemma VisitStep(buckets: Buckets, visited: seq<string>, key: string, throws: RunFails,
                  past: seq<InsertRow>, pastLines: seq<Message>)
    requires (forall k :: k in visited ==> k in buckets) && key in buckets
    requires !FlushAll(buckets, visited, throws, past).aborted
    ensures var prev := FlushAll(buckets, visited, throws, past);
      var b := FlushBucket(buckets, key, throws, past + prev.inserts);
      var next := FlushAll(buckets, visited + [key], throws, past);
      next.aborted == b.aborted
      && past + next.inserts == (past + prev.inserts) + b.inserts
      && pastLines + next.messages == (pastLines + prev.messages) + b.messages
  {
    FlushStep(buckets, visited, key, throws, past);
    var prev := FlushAll(buckets, visited, throws, past);
    var b := FlushBucket(buckets, key, throws, past + prev.inserts);
    assert past + (prev.inserts + b.inserts) == (past + prev.inserts) + b.inserts;
    assert pastLines + (prev.messages + b.messages) == (pastLines + prev.messages) + b.messages;
  }

  /** The keys are split into the visited ones, each once, and the remaining ones. */
  ghost predicate Splits(keys: set<string>, visited: seq<string>, remaining: set<string>)
  {
    remaining <= keys && Distinct(visited) && |visited| + |remaining| == |keys|
    && (forall k :: k in visited ==> k in keys && k !in remaining)
    && (forall k :: k in keys ==> k in visited || k in remaining)
  }

  /** Visiting one remaining key keeps the split. */
  lemma SplitsMove(keys: set<string>, visited: seq<string>, remaining: set<string>, key: string)
    requires Splits(keys, visited, remaining) && key in remaining
    ensures Splits(keys, visited + [key], remaining - {key})
  {
    DistinctConcat(visited, [key]);
  }

  /** With nothing remaining, the visited keys list every key once. */
  lemma SplitsDone(data: Buckets, visited: seq<string>)
    requires Splits(data.Keys, visited, {})
    ensures Enumerates(visited, data)
  {
  }

  /**
   * An aborted visit of some buckets, followed by the unvisited ones in any
   * order, is a full visiting order with the same outcome.
   */
  lemma CompleteOrder(data: Buckets, visited: seq<string>, remaining: set<string>, throws: RunFails,
                      past: seq<InsertRow>)
    returns (order: seq<string>)
    requires Splits(data.Keys, visited, remaining)
    requires FlushAll(data, visited, throws, past).aborted
    ensures Enumerates(order, data)
    ensures FlushAll(data, order, throws, past) == FlushAll(data, visited, throws, past)
  {
    var rest := Enumerate(remaining);
    FlushStaysAborted(data, visited, rest, throws, past);
    DistinctConcat(visited, rest);
    order := visited + rest;
  }

  /** The keys of a finite set, each once, in some order. */
  ghost function Enumerate(keys: set<string>): (order: seq<string>)
    ensures Distinct(order)
    ensures forall k :: k in order <==> k in keys
    ensures |order| == |keys|
    decreases |keys|
  {
    if keys == {} then []
    else
      var k :| k in keys;
      [k] + Enumerate(keys - {k})
  }

  /**
   * The whole ingestion of a parsed file: feed rows while the parser runs,
   * log a read failure if the stream failed after them, then run the end
   * handler over the buckets in the order `visited`. The inserts are those
   * that order commits; without a throwing call they are exactly the
   * accepted rows with a resolvable key, bucket by bucket in file order; an
   * error line is logged exactly when a call throws.
   */
  method ProcessCSV(rows: seq<Row>, readFails: bool, throws: RunFails)
    returns (inserts: seq<InsertRow>, messages: seq<Message>, ghost visited: seq<string>)
    ensures Enumerates(visited, Bucketed(AcceptedRows(rows)))
    ensures var f := FlushAll(Bucketed(AcceptedRows(rows)), visited, throws, []);
      inserts == f.inserts
      && messages == EarlyLines(rows, readFails) + f.messages
    ensures multiset(inserts) <= multiset(RowInserts(AcceptedRows(rows)))
    ensures var e := Emit(Bucketed(AcceptedRows(rows)), visited);
      (forall i :: 0 <= i < |e| ==> !ThrowsAt(throws, [], e, i)) ==>
      inserts == KeyedInserts(AcceptedRows(rows), visited)
      && multiset(inserts) == multiset(RowInserts(AcceptedRows(rows)))
    ensures var e := Emit(Bucketed(AcceptedRows(rows)), visited);
      ProcessingError in messages <==> exists i :: 0 <= i < |e| && ThrowsAt(throws, [], e, i)
    ensures forall i :: 0 <= i < |inserts| ==> !ThrowsAt(throws, [], inserts, i)
    ensures forall x :: x in inserts ==> x.table in Router.TableNames && x.requestType == None
    ensures rows != [] && !HasExpectedHeaders(rows[0]) ==> inserts == []
  {
    var ingestion := new Ingestion();
    ingestion.Feed(rows);
    if readFails {
      ingestion.OnReadError();
    }
    assert ingestion.messages == EarlyLines(rows, readFails);
    visited := ingestion.OnEnd(throws);
    inserts, messages := ingestion.inserts, ingestion.messages;
    ProcessOutcome(rows, readFails, visited, throws);
  }

  /** The lines logged before the end phase: the header failure and the read failure. */
  function EarlyLines(rows: seq<Row>, readFails: bool): (lines: seq<Message>)
    ensures ProcessingError !in lines
    ensures StructureMismatch in lines <==> rows != [] && !HasExpectedHeaders(rows[0])
  {
    (if rows != [] && !HasExpectedHeaders(rows[0]) then [StructureMismatch] else [])
    + (if readFails then [ReadFailed] else [])
  }

  /** What ProcessCSV promises, about the end phase over one visiting order of the buckets. */
  lemma ProcessOutcome(rows: seq<Row>, readFails: bool, visited: seq<string>, throws: RunFails)
    requires Enumerates(visited, Bucketed(AcceptedRows(rows)))
    ensures var f := FlushAll(Bucketed(AcceptedRows(rows)), visited, throws, []);
      var e := Emit(Bucketed(AcceptedRows(rows)), visited);
      multiset(f.inserts) <= multiset(RowInserts(AcceptedRows(rows)))
      && ((forall i :: 0 <= i < |e| ==> !ThrowsAt(throws, [], e, i)) ==>
            f.inserts == KeyedInserts(AcceptedRows(rows), visited)
            && multiset(f.inserts) == multiset(RowInserts(AcceptedRows(rows))))
      && (ProcessingError in EarlyLines(rows, readFails) + f.messages
          <==> exists i :: 0 <= i < |e| && ThrowsAt(throws, [], e, i))
      && (forall i :: 0 <= i < |f.inserts| ==> !ThrowsAt(throws, [], f.inserts, i))
      && (forall x :: x in f.inserts ==> x.table in Router.TableNames && x.requestType == None)
      && (rows != [] && !HasExpectedHeaders(rows[0]) ==> f.inserts == [])
  {
    var accepted := AcceptedRows(rows);
    IngestOutcome(accepted, visited, throws);
  }
}
