/** The outbox table: events waiting to be pushed to the author registry. A row
    is pending while it is not processed and has failed fewer than five times;
    a fetch returns at most ten pending rows, oldest first. Time is an integer
    number of seconds supplied by the caller (the database clock). */
module RepositorioOutbox {
  import opened Common

  const MaxRetries := 5
  const BatchSize := 10

  datatype OutboxEvent = OutboxEvent(
    id: int,
    eventType: string,
    eventData: string,
    usuarioId: int,
    createdAt: int,
    processed: bool,
    retryCount: int)

  /** `Processed = 0 AND RetryCount < 5`. */
  predicate IsPending(e: OutboxEvent) {
    !e.processed && e.retryCount < MaxRetries
  }

  /** The pending rows, in table order. */
  function Pending(rows: seq<OutboxEvent>): (r: seq<OutboxEvent>)
    ensures forall e :: e in r <==> e in rows && IsPending(e)
  {
    Filter(rows, IsPending)
  }

  predicate SortedByCreatedAt(s: seq<OutboxEvent>) {
    forall i, j :: 0 <= i < j < |s| ==> s[i].createdAt <= s[j].createdAt
  }

  /** Places `e` after every row not younger than it, so rows with equal
      timestamps keep their table order. */
  function InsertByCreatedAt(e: OutboxEvent, sorted: seq<OutboxEvent>): (r: seq<OutboxEvent>)
    ensures multiset(r) == multiset(sorted) + multiset{e}
  {
    if sorted == [] then [e]
    else if e.createdAt < sorted[0].createdAt then [e] + sorted
    else
      assert sorted == [sorted[0]] + sorted[1..];
      [sorted[0]] + InsertByCreatedAt(e, sorted[1..])
  }

  /** Inserting into a sorted sequence keeps it sorted. */
  lemma {:induction false} InsertSorted(e: OutboxEvent, sorted: seq<OutboxEvent>)
    requires SortedByCreatedAt(sorted)
    ensures SortedByCreatedAt(InsertByCreatedAt(e, sorted))
  {
    if sorted == [] {
    } else if e.createdAt < sorted[0].createdAt {
      ConsSorted(e, sorted);
    } else {
      var rest := InsertByCreatedAt(e, sorted[1..]);
      InsertSorted(e, sorted[1..]);
      forall x | x in rest
        ensures sorted[0].createdAt <= x.createdAt
      {
        InsertMember(e, sorted[1..], x);
      }
      ConsSorted(sorted[0], rest);
    }
  }

  /** A row of an insertion is the inserted row or a row it was inserted
      into. */
  lemma InsertMember(e: OutboxEvent, sorted: seq<OutboxEvent>, x: OutboxEvent)
    requires x in InsertByCreatedAt(e, sorted)
    ensures x == e || x in sorted
  {
    assert x in multiset(InsertByCreatedAt(e, sorted));
  }

  /** A row no younger than any of a sorted sequence may go in front of it. */
  lemma ConsSorted(x: OutboxEvent, rest: seq<OutboxEvent>)
    requires SortedByCreatedAt(rest)
    requires forall y :: y in rest ==> x.createdAt <= y.createdAt
    ensures SortedByCreatedAt([x] + rest)
  {
    var r := [x] + rest;
    forall i, j | 0 <= i < j < |r|
      ensures r[i].createdAt <= r[j].createdAt
    {
      assert r[j] == rest[j - 1];
      if i > 0 {
        assert r[i] == rest[i - 1];
      }
    }
  }

  /** A row whose id none of `rest` has may go in front of it. */
  lemma ConsUnique(x: OutboxEvent, rest: seq<OutboxEvent>)
    requires UniqueIds(rest)
    requires forall y :: y in rest ==> y.id != x.id
    ensures UniqueIds([x] + rest)
  {
    var r := [x] + rest;
    forall i, j | 0 <= i < j < |r|
      ensures r[i].id != r[j].id
    {
      assert r[j] == rest[j - 1];
      if i > 0 {
        assert r[i] == rest[i - 1];
      }
    }
  }

  /** `ORDER BY CreatedAt`: a stable sort, defined from the last row so that a
      scan inserting row by row follows it. Rows with equal timestamps keep
      their table order, a choice the database itself does not promise. */
  function SortByCreatedAt(s: seq<OutboxEvent>): (r: seq<OutboxEvent>)
    ensures multiset(r) == multiset(s)
    ensures SortedByCreatedAt(r)
  {
    if s == [] then []
    else
      assert s == s[..|s| - 1] + [s[|s| - 1]];
      InsertSorted(s[|s| - 1], SortByCreatedAt(s[..|s| - 1]));
      InsertByCreatedAt(s[|s| - 1], SortByCreatedAt(s[..|s| - 1]))
  }

  /** Row ids are distinct. */
  predicate UniqueIds(rows: seq<OutboxEvent>) {
    forall i, j :: 0 <= i < j < |rows| ==> rows[i].id != rows[j].id
  }

  /** Inserting a row whose id is new keeps the ids distinct. */
  lemma {:induction false} InsertUnique(e: OutboxEvent, sorted: seq<OutboxEvent>)
    requires UniqueIds(sorted)
    requires forall x :: x in sorted ==> x.id != e.id
    ensures UniqueIds(InsertByCreatedAt(e, sorted))
  {
    if sorted == [] {
    } else if e.createdAt < sorted[0].createdAt {
      ConsUnique(e, sorted);
    } else {
      var rest := InsertByCreatedAt(e, sorted[1..]);
      assert UniqueIds(sorted[1..]) by {
        forall i, j | 0 <= i < j < |sorted[1..]|
          ensures sorted[1..][i].id != sorted[1..][j].id
        {
          assert sorted[1..][i] == sorted[i + 1] && sorted[1..][j] == sorted[j + 1];
        }
      }
      InsertUnique(e, sorted[1..]);
      forall x | x in rest
        ensures x.id != sorted[0].id
      {
        InsertMember(e, sorted[1..], x);
        if x != e {
          var j :| 0 <= j < |sorted[1..]| && sorted[1..][j] == x;
          assert sorted[j + 1] == x;
        }
      }
      ConsUnique(sorted[0], rest);
    }
  }

  /** Sorting rows with distinct ids gives rows with distinct ids. */
  lemma {:induction false} SortUnique(s: seq<OutboxEvent>)
    requires UniqueIds(s)
    ensures UniqueIds(SortByCreatedAt(s))
    decreases |s|
  {
    if s != [] {
      var init := s[..|s| - 1];
      var x := s[|s| - 1];
      SortUnique(init);
      forall y | y in SortByCreatedAt(init)
        ensures y.id != x.id
      {
        assert y in multiset(SortByCreatedAt(init));
        var j :| 0 <= j < |init| && init[j] == y;
        assert s[j] == y;
      }
      InsertUnique(x, SortByCreatedAt(init));
    }
  }

  /** `LIMIT 10`. */
  function Take(s: seq<OutboxEvent>, n: nat): (r: seq<OutboxEvent>)
    ensures |r| == if |s| <= n then |s| else n
    ensures r == s[..|r|]
  {
    if |s| <= n then s else s[..n]
  }

  /** What `GetPendingEventsAsync` returns for a table. */
  function PendingBatch(rows: seq<OutboxEvent>): (r: seq<OutboxEvent>)
    ensures |r| <= BatchSize
    ensures multiset(r) <= multiset(Pending(rows))
    ensures SortedByCreatedAt(r)
  {
    var s := SortByCreatedAt(Pending(rows));
    var r := Take(s, BatchSize);
    assert s == r + s[|r|..];
    r
  }

  /** Sorting keeps the rows and their number. */
  lemma SortedRows(p: seq<OutboxEvent>)
    ensures |SortByCreatedAt(p)| == |p|
    ensures forall e :: e in SortByCreatedAt(p) <==> e in p
  {
    var s := SortByCreatedAt(p);
    assert |multiset(s)| == |multiset(p)|;
    forall e
      ensures e in s <==> e in p
    {
      assert e in s <==> e in multiset(s);
      assert e in p <==> e in multiset(p);
    }
  }

  /** The batch holds only pending rows of the table, oldest first, and it is
      exactly as long as the pending rows when there are at most ten, ten
      otherwise. */
  lemma PendingBatchSound(rows: seq<OutboxEvent>)
    ensures forall e :: e in PendingBatch(rows) ==> e in rows && IsPending(e)
    ensures |PendingBatch(rows)| == if |Pending(rows)| <= BatchSize then |Pending(rows)| else BatchSize
    ensures SortedByCreatedAt(PendingBatch(rows))
  {
    var s := SortByCreatedAt(Pending(rows));
    SortedRows(Pending(rows));
    forall e | e in PendingBatch(rows)
      ensures e in s
    {
      var k :| 0 <= k < |PendingBatch(rows)| && PendingBatch(rows)[k] == e;
      assert s[k] == e;
    }
  }

  /** Every pending row left out of a batch is no older than the last row
      fetched, and a batch only leaves rows out when it is full. */
  lemma PendingBatchOldestFirst(rows: seq<OutboxEvent>, e: OutboxEvent)
    requires e in rows && IsPending(e) && e !in PendingBatch(rows)
    ensures |PendingBatch(rows)| == BatchSize
    ensures PendingBatch(rows)[BatchSize - 1].createdAt <= e.createdAt
  {
    var s := SortByCreatedAt(Pending(rows));
    var b := PendingBatch(rows);
    SortedRows(Pending(rows));
    assert e in s;
    var k :| 0 <= k < |s| && s[k] == e;
    assert forall j | 0 <= j < |b| :: b[j] == s[j] && b[j] in b;
    assert k >= |b|;
    assert b[BatchSize - 1] == s[BatchSize - 1];
  }

  /** A fetched batch never holds two rows with the same id. */
  lemma BatchUniqueIds(rows: seq<OutboxEvent>)
    requires UniqueIds(rows)
    ensures UniqueIds(PendingBatch(rows))
  {
    FilterPairwise(rows, IsPending, (a: OutboxEvent, b: OutboxEvent) => a.id != b.id);
    SortUnique(Pending(rows));
  }

  /** One more row scanned: a pending row is inserted into the sorted
      pending rows seen so far, any other row is skipped. */
  lemma ScanStep(rows: seq<OutboxEvent>, i: int)
    requires 0 <= i < |rows|
    ensures SortByCreatedAt(Pending(rows[..i + 1])) ==
      if IsPending(rows[i]) then InsertByCreatedAt(rows[i], SortByCreatedAt(Pending(rows[..i])))
      else SortByCreatedAt(Pending(rows[..i]))
  {
    assert rows[..i + 1] == rows[..i] + [rows[i]];
    FilterSnoc(rows[..i], rows[i], IsPending);
    if IsPending(rows[i]) {
      var p := Pending(rows[..i + 1]);
      assert p == Pending(rows[..i]) + [rows[i]];
      assert p[..|p| - 1] == Pending(rows[..i]);
    }
  }

  /** `UPDATE ... SET Processed = 1 WHERE Id = @Id`. */
  function MarkProcessed(rows: seq<OutboxEvent>, id: int): (r: seq<OutboxEvent>)
    ensures |r| == |rows|
  {
    seq(|rows|, i requires 0 <= i < |rows| => if rows[i].id == id then rows[i].(processed := true) else rows[i])
  }

  /** `UPDATE ... SET RetryCount = RetryCount + 1 WHERE Id = @Id`. */
  function IncrementRetry(rows: seq<OutboxEvent>, id: int): (r: seq<OutboxEvent>)
    ensures |r| == |rows|
  {
    seq(|rows|, i requires 0 <= i < |rows| => if rows[i].id == id then rows[i].(retryCount := rows[i].retryCount + 1) else rows[i])
  }

  /** Marking touches the rows with that id only and sets just their flag;
      marking twice is marking once, and an unknown id changes nothing. */
  lemma MarkProcessedSpec(rows: seq<OutboxEvent>, id: int)
    ensures forall i :: 0 <= i < |rows| && rows[i].id == id ==>
      MarkProcessed(rows, id)[i] == rows[i].(processed := true) && !IsPending(MarkProcessed(rows, id)[i])
    ensures forall i :: 0 <= i < |rows| && rows[i].id != id ==> MarkProcessed(rows, id)[i] == rows[i]
    ensures MarkProcessed(MarkProcessed(rows, id), id) == MarkProcessed(rows, id)
    ensures (forall i :: 0 <= i < |rows| ==> rows[i].id != id) ==> MarkProcessed(rows, id) == rows
  {
  }

  /** Incrementing raises the retry count of the rows with that id by exactly
      one and changes nothing else. */
  lemma IncrementRetrySpec(rows: seq<OutboxEvent>, id: int)
    ensures forall i :: 0 <= i < |rows| && rows[i].id == id ==>
      IncrementRetry(rows, id)[i] == rows[i].(retryCount := rows[i].retryCount + 1)
    ensures forall i :: 0 <= i < |rows| && rows[i].id != id ==> IncrementRetry(rows, id)[i] == rows[i]
    ensures (forall i :: 0 <= i < |rows| ==> rows[i].id != id) ==> IncrementRetry(rows, id) == rows
  {
  }

  /** The operations a client can apply to the table. */
  datatype OutboxOp =
    | Add(eventType: string, eventData: string, usuarioId: int, now: int)
    | Mark(id: int)
    | Increment(id: int)

  /** One operation on the table; `nextId` is the id the insert receives. */
  function Apply(rows: seq<OutboxEvent>, nextId: int, op: OutboxOp): (r: seq<OutboxEvent>)
    ensures |r| >= |rows|
  {
    match op
    case Add(t, d, u, now) => rows + [OutboxEvent(nextId, t, d, u, now, false, 0)]
    case Mark(id) => MarkProcessed(rows, id)
    case Increment(id) => IncrementRetry(rows, id)
  }

  /** A run of operations, the k-th insert receiving id `firstId + k`. */
  function Run(rows: seq<OutboxEvent>, firstId: int, ops: seq<OutboxOp>): (r: seq<OutboxEvent>)
    decreases |ops|
  {
    if ops == [] then rows
    else Run(Apply(rows, firstId, ops[0]), if ops[0].Add? then firstId + 1 else firstId, ops[1..])
  }

  /** `after` keeps every row of `before` in place with the same id, payload
      and timestamp, a processed flag that was set stays set, and no retry
      count went down. */
  predicate Advanced(before: seq<OutboxEvent>, after: seq<OutboxEvent>) {
    && |before| <= |after|
    && forall i :: 0 <= i < |before| ==>
      && after[i].id == before[i].id
      && after[i].eventType == before[i].eventType
      && after[i].eventData == before[i].eventData
      && after[i].createdAt == before[i].createdAt
      && (before[i].processed ==> after[i].processed)
      && before[i].retryCount <= after[i].retryCount
  }

  /** No operation clears `Processed` or lowers `RetryCount`, so a row that is
      processed or has used up its retries is never pending again. */
  lemma {:induction false} RunAdvances(rows: seq<OutboxEvent>, firstId: int, ops: seq<OutboxOp>)
    ensures Advanced(rows, Run(rows, firstId, ops))
    ensures forall i :: 0 <= i < |rows| && !IsPending(rows[i]) ==> !IsPending(Run(rows, firstId, ops)[i])
    decreases |ops|
  {
    if ops != [] {
      var next := Apply(rows, firstId, ops[0]);
      assert Advanced(rows, next);
      RunAdvances(next, if ops[0].Add? then firstId + 1 else firstId, ops[1..]);
    }
  }

  /** The `OutboxEvents` table with its auto-increment counter. */
  class OutboxStore {
    var rows: seq<OutboxEvent>
    var nextId: int

    /** Ids are distinct and below the next one to be handed out. */
    ghost predicate Valid()
      reads this
    {
      UniqueIds(rows) && forall i :: 0 <= i < |rows| ==> rows[i].id < nextId
    }

    constructor()
      ensures Valid() && rows == [] && nextId == 1
    {
      rows := [];
      nextId := 1;
    }

    /** `AddEventAsync`: one new row, not processed, no retries, stamped with
        the current time. */
    method AddEvent(eventType: string, eventData: string, usuarioId: int, now: int)
      requires Valid()
      modifies this
      ensures Valid()
      ensures rows == old(rows) + [OutboxEvent(old(nextId), eventType, eventData, usuarioId, now, false, 0)]
      ensures nextId == old(nextId) + 1
    {
      rows := rows + [OutboxEvent(nextId, eventType, eventData, usuarioId, now, false, 0)];
      nextId := nextId + 1;
    }

    /** `GetPendingEventsAsync`: the query scans the table, keeps the pending
        rows in `CreatedAt` order, and the reader hands back the first ten. */
    method GetPendingEvents() returns (events: seq<OutboxEvent>)
      ensures events == PendingBatch(rows)
    {
      var sorted: seq<OutboxEvent> := [];
      var i := 0;
      while i < |rows|
        invariant 0 <= i <= |rows|
        invariant sorted == SortByCreatedAt(Pending(rows[..i]))
      {
        ScanStep(rows, i);
        if IsPending(rows[i]) {
          sorted := InsertByCreatedAt(rows[i], sorted);
        }
        i := i + 1;
      }
      assert rows[..|rows|] == rows;
      events := Take(sorted, BatchSize);
    }

    /** `MarkAsProcessedAsync`. */
    method MarkAsProcessed(eventId: int)
      requires Valid()
      modifies this
      ensures Valid()
      ensures rows == MarkProcessed(old(rows), eventId) && nextId == old(nextId)
    {
      rows := MarkProcessed(rows, eventId);
    }

    /** `IncrementRetryCountAsync`. */
    method IncrementRetryCount(eventId: int)
      requires Valid()
      modifies this
      ensures Valid()
      ensures rows == IncrementRetry(old(rows), eventId) && nextId == old(nextId)
    {
      rows := IncrementRetry(rows, eventId);
    }
  }
}
