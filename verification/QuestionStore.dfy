/** Storing imported records: chunked insert-or-update statements in one transaction. */
module QuestionStore {
  import opened Options
  import opened QuizImport
  import opened Sorting

  /** A record and the time it was built. */
  datatype Entry = Entry(record: Record, at: int)

  /** A stored question. An update leaves the creation time alone. */
  datatype Stored = Stored(record: Record, createdAt: int, updatedAt: int)

  datatype StoreError = NothingToImport | RowTwice

  const CHUNK := 1000

  /** The first n chunks, one behind the other. */
  function Flat<T>(chunks: seq<seq<T>>, n: nat): seq<T>
    requires n <= |chunks|
  {
    if n == 0 then [] else Flat(chunks, n - 1) + chunks[n - 1]
  }

  lemma {:induction false} FlatPrefix<T>(chunks: seq<seq<T>>, more: seq<T>, n: nat)
    requires n <= |chunks|
    ensures Flat(chunks + [more], n) == Flat(chunks, n)
  {
    if n != 0 {
      FlatPrefix(chunks, more, n - 1);
    }
  }

  /** `_chunks`: nothing lost, nothing reordered, every chunk full but the last. */
  method Chunks<T>(rows: seq<T>, size: nat) returns (chunks: seq<seq<T>>)
    requires size > 0
    ensures Flat(chunks, |chunks|) == rows
    ensures forall k | 0 <= k < |chunks| :: 1 <= |chunks[k]| <= size
    ensures forall k | 0 <= k < |chunks| - 1 :: |chunks[k]| == size
  {
    chunks := [];
    var index := 0;
    while index < |rows|
      invariant Flat(chunks, |chunks|) == if index < |rows| then rows[..index] else rows
      invariant forall k | 0 <= k < |chunks| :: 1 <= |chunks[k]| <= size
      invariant index < |rows| ==> forall k | 0 <= k < |chunks| :: |chunks[k]| == size
      invariant forall k | 0 <= k < |chunks| - 1 :: |chunks[k]| == size
    {
      var end := if index + size <= |rows| then index + size else |rows|;
      FlatPrefix(chunks, rows[index..end], |chunks|);
      assert rows[..index] + rows[index..end] == rows[..end];
      assert rows[..|rows|] == rows;
      chunks := chunks + [rows[index..end]];
      index := index + size;
    }
  }

  /** Chunks that are full but for the last begin at every thousandth row. */
  lemma {:induction false} FlatLength<T>(chunks: seq<seq<T>>, n: nat)
    requires n <= |chunks| && forall k | 0 <= k < |chunks| - 1 :: |chunks[k]| == CHUNK
    ensures n < |chunks| ==> |Flat(chunks, n)| == 1000 * n
  {
    if n != 0 {
      FlatLength(chunks, n - 1);
    }
  }

  /** Two of the rows sent in one statement have the same id. */
  ghost predicate TwiceInStatement(entries: seq<Entry>, k: nat) {
    exists i, j | 1000 * k <= i < j < |entries| && j < 1000 * (k + 1) :: entries[i].record.id == entries[j].record.id
  }

  lemma TwiceIff(entries: seq<Entry>, chunks: seq<seq<Entry>>, k: nat)
    requires Flat(chunks, |chunks|) == entries && k < |chunks|
    requires (forall m | 0 <= m < |chunks| :: 1 <= |chunks[m]| <= CHUNK) && forall m | 0 <= m < |chunks| - 1 :: |chunks[m]| == CHUNK
    ensures HasRepeats(Ids(chunks[k])) <==> TwiceInStatement(entries, k)
  {
    var at := FlatAt(chunks, k, |chunks|);
    FlatLength(chunks, k);
    assert at == 1000 * k;
    FlatReaches(chunks, k);
    forall i | 0 <= i < |chunks[k]|
      ensures Ids(chunks[k])[i] == entries[1000 * k + i].record.id
    {
    }
    if i, j :| 1000 * k <= i < j < |entries| && j < 1000 * (k + 1) && entries[i].record.id == entries[j].record.id {
      assert Ids(chunks[k])[i - 1000 * k] == Ids(chunks[k])[j - 1000 * k];
    }
    if i, j :| 0 <= i < j < |chunks[k]| && Ids(chunks[k])[i] == Ids(chunks[k])[j] {
      assert entries[1000 * k + i].record.id == entries[1000 * k + j].record.id;
    }
  }

  /** A chunk ends where a thousand rows are full, or with the rows. */
  lemma FlatReaches<T>(chunks: seq<seq<T>>, k: nat)
    requires k < |chunks| && forall m | 0 <= m < |chunks| - 1 :: |chunks[m]| == CHUNK
    ensures |chunks[k]| == CHUNK || |Flat(chunks, |chunks|)| == 1000 * k + |chunks[k]|
  {
    FlatLength(chunks, k);
  }

  /** One row inserted, or updated if its id is taken. */
  function Upsert(table: map<string, Stored>, e: Entry): map<string, Stored> {
    var id := e.record.id;
    table[id := Stored(e.record, if id in table then table[id].createdAt else e.at, e.at)]
  }

  function UpsertTo(table: map<string, Stored>, entries: seq<Entry>, n: nat): map<string, Stored>
    requires n <= |entries|
  {
    if n == 0 then table else Upsert(UpsertTo(table, entries, n - 1), entries[n - 1])
  }

  lemma {:induction false} UpsertJoins(table: map<string, Stored>, a: seq<Entry>, b: seq<Entry>, n: nat)
    requires n <= |b|
    ensures UpsertTo(table, a + b, |a| + n) == UpsertTo(UpsertTo(table, a, |a|), b, n)
  {
    if n != 0 {
      UpsertJoins(table, a, b, n - 1);
    } else {
      UpsertFront(table, a, b, |a|);
    }
  }

  lemma {:induction false} UpsertFront(table: map<string, Stored>, a: seq<Entry>, b: seq<Entry>, n: nat)
    requires n <= |a|
    ensures UpsertTo(table, a + b, n) == UpsertTo(table, a, n)
  {
    if n != 0 {
      UpsertFront(table, a, b, n - 1);
    }
  }

  function Ids(entries: seq<Entry>): (ids: seq<string>)
    ensures |ids| == |entries| && forall k | 0 <= k < |entries| :: ids[k] == entries[k].record.id
  {
    seq(|entries|, k requires 0 <= k < |entries| => entries[k].record.id)
  }

  /** Storing entries under distinct ids: each replaces the row of its id, whose creation time stays; other rows stay. */
  lemma {:induction false} UpsertAt(table: map<string, Stored>, entries: seq<Entry>, n: nat, id: string)
    requires n <= |entries| && NoRepeats(Ids(entries))
    ensures var after := UpsertTo(table, entries, n);
            && (id in after <==> id in table || exists k | 0 <= k < n :: entries[k].record.id == id)
            && (forall k | 0 <= k < n && entries[k].record.id == id ::
                  after[id] == Stored(entries[k].record, if id in table then table[id].createdAt else entries[k].at, entries[k].at))
            && ((forall k | 0 <= k < n :: entries[k].record.id != id) && id in table ==> after[id] == table[id])
  {
    if n != 0 {
      UpsertAt(table, entries, n - 1, id);
      assert forall k | 0 <= k < n - 1 :: Ids(entries)[k] != Ids(entries)[n - 1];
    }
  }

  class Questions {
    var rows: map<string, Stored>

    /** One statement. The database refuses to touch a row twice in one statement. */
    method UpsertChunk(chunk: seq<Entry>) returns (ok: bool)
      modifies this
      ensures ok == !HasRepeats(Ids(chunk))
      ensures rows == if ok then UpsertTo(old(rows), chunk, |chunk|) else old(rows)
    {
      ok := !HasRepeats(Ids(chunk));
      if ok {
        for k := 0 to |chunk|
          invariant rows == UpsertTo(old(rows), chunk, k)
        {
          rows := Upsert(rows, chunk[k]);
        }
      }
    }

    /**
     `_persist_records`, as one transaction. With distinct ids it cannot fail but for want of records, and the chunks do what
     one statement would do.
     */
    method Persist(entries: seq<Entry>, replaceAll: bool) returns (error: Option<StoreError>)
      modifies this
      ensures error == Some(NothingToImport) <==> entries == []
      ensures error.Some? ==> rows == old(rows)
      ensures error == Some(RowTwice) <==> exists k: nat :: TwiceInStatement(entries, k)
      ensures entries != [] && NoRepeats(Ids(entries)) ==> error == None
      ensures error == None ==> rows == UpsertTo(if replaceAll then map[] else old(rows), entries, |entries|)
    {
      if entries == [] {
        return Some(NothingToImport);
      }
      var before := rows;
      if replaceAll {
        rows := map[];
      }
      ghost var start := rows;
      var chunks := Chunks(entries, CHUNK);
      for k := 0 to |chunks|
        invariant rows == UpsertTo(start, Flat(chunks, k), |Flat(chunks, k)|)
        invariant forall m: nat | m < k :: !TwiceInStatement(entries, m)
      {
        var ok := UpsertChunk(chunks[k]);
        TwiceIff(entries, chunks, k);
        if !ok {
          if NoRepeats(Ids(entries)) {
            DistinctNeverTwice(entries, k);
          }
          rows := before;
          return Some(RowTwice);
        }
        UpsertJoins(start, Flat(chunks, k), chunks[k], |chunks[k]|);
      }
      NoStatementBeyond(entries, chunks);
      error := None;
    }
  }

  /** Where a chunk's elements stand in the whole. */
  lemma {:induction false} FlatAt<T>(chunks: seq<seq<T>>, k: nat, n: nat) returns (at: nat)
    requires k < n <= |chunks|
    ensures at == |Flat(chunks, k)|
    ensures at + |chunks[k]| <= |Flat(chunks, n)|
    ensures forall i | 0 <= i < |chunks[k]| :: Flat(chunks, n)[at + i] == chunks[k][i]
  {
    if k == n - 1 {
      at := |Flat(chunks, n - 1)|;
    } else {
      at := FlatAt(chunks, k, n - 1);
    }
  }

  lemma NoStatementBeyond(entries: seq<Entry>, chunks: seq<seq<Entry>>)
    requires Flat(chunks, |chunks|) == entries && forall m | 0 <= m < |chunks| - 1 :: |chunks[m]| == CHUNK
    requires forall m | 0 <= m < |chunks| :: |chunks[m]| <= CHUNK
    ensures forall k: nat | |chunks| <= k :: !TwiceInStatement(entries, k)
  {
    if chunks != [] {
      FlatLength(chunks, |chunks| - 1);
    }
  }

  /** Rows under distinct ids never repeat an id in a statement. */
  lemma DistinctNeverTwice(entries: seq<Entry>, k: nat)
    requires NoRepeats(Ids(entries))
    ensures !TwiceInStatement(entries, k)
  {
    assert forall i | 0 <= i < |entries| :: Ids(entries)[i] == entries[i].record.id;
  }
}
