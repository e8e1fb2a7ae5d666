/**
 The delete command: each statement scans the collection in batches, collects the matching
 rows, and deletes what it has collected after every batch in a transaction of its own.
 */
module Deletion {
  import opened Bytes
  import opened Values
  import opened Wrappers

  /** A stored row: the JSON of its "_id" and its document. */
  datatype Row = Row(id: bytes, doc: Fields)

  datatype Failure = FilterError | NegativeLimit | FetchError | StoreError

  /** A message of the fetch channel. */
  datatype Fetched = Batch(rows: seq<Row>) | Broken

  /** The filter, which may fail on a document, and the limit. */
  datatype Statement = Statement(matches: Row -> Result<bool, Failure>, limit: int64)

  // -------------------------------------------------------------- operations

  predicate HasId(rows: seq<Row>, id: bytes)
  {
    exists i :: 0 <= i < |rows| && rows[i].id == id
  }

  /** `DELETE ... WHERE _id IN (...)`: every row with one of the ids goes. */
  function DeleteById(table: seq<Row>, docs: seq<Row>): (kept: seq<Row>)
    ensures |kept| <= |table|
  {
    if table == [] then []
    else if HasId(docs, table[0].id) then DeleteById(table[1..], docs)
    else [table[0]] + DeleteById(table[1..], docs)
  }

  /** `LimitDocuments`. */
  function LimitDocuments(docs: seq<Row>, limit: int64): Result<seq<Row>, Failure>
  {
    if limit == 0 then Success(docs)
    else if limit > 0 then Success(if |docs| <= limit then docs else docs[..limit])
    else Failure(NegativeLimit)
  }

  /** The rows of a batch that match, appended to those collected before. */
  function Collect(s: Statement, rows: seq<Row>, acc: seq<Row>): Result<seq<Row>, Failure>
  {
    if rows == [] then Success(acc)
    else
      var m :- s.matches(rows[0]);
      Collect(s, rows[1..], if m then acc + [rows[0]] else acc)
  }

  /** What a statement leaves behind: the table, how many rows it reports, and its error if any. */
  datatype Effect = Effect(table: seq<Row>, removed: nat, error: Option<Failure>)

  /** The documents to delete after one more message, as collected so far. */
  function NextDocs(s: Statement, item: Fetched, acc: seq<Row>): Result<seq<Row>, Failure>
  {
    if item.Broken? then Failure(FetchError)
    else
      var docs :- Collect(s, item.rows, acc);
      LimitDocuments(docs, s.limit)
  }

  /** The loop of `processQuery`; `fails[i]` says whether the store refuses the delete of message `i`. */
  function Process(s: Statement, items: seq<Fetched>, fails: seq<bool>, table: seq<Row>, acc: seq<Row>): Effect
    requires |fails| == |items|
    decreases |items|
  {
    if items == [] then Effect(table, 0, None)
    else match NextDocs(s, items[0], acc)
      case Failure(e) => Effect(table, 0, Some(e))
      case Success(docs) =>
        if docs == [] then Process(s, items[1..], fails[1..], table, docs)
        else if fails[0] then Effect(table, 0, Some(StoreError))
        else
          var table' := DeleteById(table, docs);
          var e := Process(s, items[1..], fails[1..], table', docs);
          e.(removed := |table| - |table'| + e.removed)
  }

  // ------------------------------------------------------------ specification

  /** All rows of the fetch, in order. */
  function RowsOf(items: seq<Fetched>): seq<Row>
  {
    if items == [] then [] else (if items[0].Batch? then items[0].rows else []) + RowsOf(items[1..])
  }

  /** The matching rows of a scan in which no row makes the filter fail. */
  function Matching(s: Statement, rows: seq<Row>): seq<Row>
  {
    if rows == [] then []
    else (if s.matches(rows[0]) == Success(true) then [rows[0]] else []) + Matching(s, rows[1..])
  }

  function Capped(docs: seq<Row>, limit: int64): seq<Row>
  {
    if 0 < limit < |docs| then docs[..limit] else docs
  }

  /** The rows a statement is meant to delete: the first `limit` matches, or all of them. */
  function Targets(s: Statement, rows: seq<Row>): seq<Row>
  {
    Capped(Matching(s, rows), s.limit)
  }

  // ------------------------------------------------------------ conservation

  /** Every row that disappears is reported, whether or not the statement succeeds. */
  lemma {:induction false} StatementConserves(s: Statement, items: seq<Fetched>, fails: seq<bool>, table: seq<Row>,
                                              acc: seq<Row>)
    requires |fails| == |items|
    ensures var e := Process(s, items, fails, table, acc); |table| == |e.table| + e.removed
    decreases |items|
  {
    if items == [] {
    } else {
      var docs := NextDocs(s, items[0], acc);
      if docs.Success? {
        StatementConserves(s, items[1..], fails[1..], table, docs.value);
        StatementConserves(s, items[1..], fails[1..], DeleteById(table, docs.value), docs.value);
      }
    }
  }

  // -------------------------------------------------------------- refinement

  lemma {:induction false} CollectMatches(s: Statement, rows: seq<Row>, acc: seq<Row>)
    requires Collect(s, rows, acc).Success?
    ensures Collect(s, rows, acc).value == acc + Matching(s, rows)
    decreases |rows|
  {
    if rows == [] {
      assert acc + [] == acc;
    } else {
      var m := s.matches(rows[0]).value;
      var acc' := if m then acc + [rows[0]] else acc;
      CollectMatches(s, rows[1..], acc');
      assert acc + [rows[0]] + Matching(s, rows[1..]) == acc + ([rows[0]] + Matching(s, rows[1..]));
      assert [] + Matching(s, rows[1..]) == Matching(s, rows[1..]);
    }
  }

  lemma {:induction false} MatchingConcat(s: Statement, a: seq<Row>, b: seq<Row>)
    ensures Matching(s, a + b) == Matching(s, a) + Matching(s, b)
    decreases |a|
  {
    if a == [] {
      assert a + b == b;
    } else {
      assert (a + b)[0] == a[0] && (a + b)[1..] == a[1..] + b;
      MatchingConcat(s, a[1..], b);
    }
  }

  lemma CappedGrows(a: seq<Row>, b: seq<Row>, limit: int64)
    requires limit >= 0
    ensures Capped(Capped(a, limit) + b, limit) == Capped(a + b, limit)
  {
  }

  lemma {:induction false} DeleteDelete(table: seq<Row>, a: seq<Row>, b: seq<Row>)
    requires forall id :: HasId(a, id) ==> HasId(b, id)
    ensures DeleteById(DeleteById(table, a), b) == DeleteById(table, b)
  {
    if table == [] {
    } else {
      DeleteDelete(table[1..], a, b);
      if !HasId(a, table[0].id) {
        var kept := DeleteById(table[1..], a);
        assert ([table[0]] + kept)[1..] == kept;
      }
    }
  }

  lemma {:induction false} DeleteNothing(table: seq<Row>)
    ensures DeleteById(table, []) == table
  {
    if table == [] {
    } else {
      DeleteNothing(table[1..]);
      assert table == [table[0]] + table[1..];
    }
  }

  lemma NextCollected(s: Statement, item: Fetched, seen: seq<Row>, acc: seq<Row>)
    requires acc == Capped(Matching(s, seen), s.limit) && NextDocs(s, item, acc).Success?
    ensures item.Batch? && s.limit >= 0
    ensures NextDocs(s, item, acc).value == Targets(s, seen + item.rows)
    ensures acc <= NextDocs(s, item, acc).value
  {
    CollectMatches(s, item.rows, acc);
    MatchingConcat(s, seen, item.rows);
    CappedGrows(Matching(s, seen), Matching(s, item.rows), s.limit);
  }

  lemma PrefixIds(a: seq<Row>, b: seq<Row>)
    requires a <= b
    ensures forall id :: HasId(a, id) ==> HasId(b, id)
  {
  }

  /** No row makes the filter fail. */
  predicate Clean(s: Statement, rows: seq<Row>)
  {
    forall i :: 0 <= i < |rows| ==> s.matches(rows[i]).Success?
  }

  lemma {:induction false} CollectSucceeds(s: Statement, rows: seq<Row>, acc: seq<Row>)
    ensures Collect(s, rows, acc).Success? <==> Clean(s, rows)
    decreases |rows|
  {
    if rows == [] {
    } else if s.matches(rows[0]).Success? {
      CollectSucceeds(s, rows[1..], if s.matches(rows[0]).value then acc + [rows[0]] else acc);
      assert forall i :: 1 <= i < |rows| ==> rows[i] == rows[1..][i - 1];
    }
  }

  /** Message `i` is handled without error when the rows of the messages before it were `seen`. */
  ghost predicate Handled(s: Statement, item: Fetched, fails: bool, seen: seq<Row>)
  {
    && item.Batch?
    && s.limit >= 0
    && Clean(s, item.rows)
    && (fails ==> Targets(s, seen + item.rows) == [])
  }

  lemma NextHandled(s: Statement, item: Fetched, fails: bool, seen: seq<Row>, acc: seq<Row>)
    requires acc == Targets(s, seen)
    ensures var n := NextDocs(s, item, acc);
            Handled(s, item, fails, seen) <==> n.Success? && (n.value == [] || !fails)
  {
    if item.Batch? {
      CollectSucceeds(s, item.rows, acc);
    }
    if NextDocs(s, item, acc).Success? {
      NextCollected(s, item, seen, acc);
    }
  }

  /** How many messages are handled before the first failure. */
  ghost function HandledCount(s: Statement, items: seq<Fetched>, fails: seq<bool>, seen: seq<Row>): (k: nat)
    requires |fails| == |items|
    ensures k <= |items|
    decreases |items|
  {
    if items == [] || !Handled(s, items[0], fails[0], seen) then 0
    else 1 + HandledCount(s, items[1..], fails[1..], seen + items[0].rows)
  }

  /**
   However the rows are split into batches, a statement leaves the table as one `DELETE` of
   its targets among the rows of the handled messages would, and it succeeds exactly when
   every message is handled.
   */
  lemma {:induction false} ProcessRefines(s: Statement, items: seq<Fetched>, fails: seq<bool>, initial: seq<Row>,
                                          table: seq<Row>, acc: seq<Row>, seen: seq<Row>)
    requires |fails| == |items|
    requires acc == Targets(s, seen) && table == DeleteById(initial, acc)
    ensures var e := Process(s, items, fails, table, acc);
            var k := HandledCount(s, items, fails, seen);
            && (e.error.None? <==> k == |items|)
            && e.table == DeleteById(initial, Targets(s, seen + RowsOf(items[..k])))
    decreases |items|
  {
    var k := HandledCount(s, items, fails, seen);
    if items == [] {
      assert seen + [] == seen;
    } else {
      NextHandled(s, items[0], fails[0], seen, acc);
      if Handled(s, items[0], fails[0], seen) {
        var docs := NextDocs(s, items[0], acc).value;
        NextCollected(s, items[0], seen, acc);
        PrefixIds(acc, docs);
        DeleteDelete(initial, acc, docs);
        ProcessRefines(s, items[1..], fails[1..], initial, DeleteById(initial, docs), docs, seen + items[0].rows);
        assert items[..k][1..] == items[1..][..k - 1];
        assert seen + items[0].rows + RowsOf(items[1..][..k - 1]) == seen + RowsOf(items[..k]);
      } else {
        assert seen + RowsOf(items[..0]) == seen;
      }
    }
  }

  /** The error of the first row that makes the filter fail. */
  function FilterFailure(s: Statement, rows: seq<Row>): Option<Failure>
  {
    if rows == [] then None
    else if s.matches(rows[0]).Failure? then Some(s.matches(rows[0]).error)
    else FilterFailure(s, rows[1..])
  }

  lemma {:induction false} CollectFails(s: Statement, rows: seq<Row>, acc: seq<Row>)
    ensures Collect(s, rows, acc).Failure? <==> FilterFailure(s, rows).Some?
    ensures Collect(s, rows, acc).Failure? ==> FilterFailure(s, rows) == Some(Collect(s, rows, acc).error)
    decreases |rows|
  {
    if rows != [] && s.matches(rows[0]).Success? {
      CollectFails(s, rows[1..], if s.matches(rows[0]).value then acc + [rows[0]] else acc);
    }
  }

  /** Why a message cannot be handled: it is an error, the filter fails, the limit is negative, or the store does. */
  function Reason(s: Statement, item: Fetched): Failure
  {
    if item.Broken? then FetchError
    else if FilterFailure(s, item.rows).Some? then FilterFailure(s, item.rows).value
    else if s.limit < 0 then NegativeLimit
    else StoreError
  }

  /** The error of a statement is the reason why its first message that is not handled is not. */
  lemma {:induction false} ErrorExactly(s: Statement, items: seq<Fetched>, fails: seq<bool>, table: seq<Row>,
                                        acc: seq<Row>, seen: seq<Row>)
    requires |fails| == |items| && acc == Targets(s, seen)
    ensures var k := HandledCount(s, items, fails, seen);
            Process(s, items, fails, table, acc).error == if k < |items| then Some(Reason(s, items[k])) else None
    decreases |items|
  {
    if items == [] {
    } else {
      NextHandled(s, items[0], fails[0], seen, acc);
      if items[0].Batch? {
        CollectFails(s, items[0].rows, acc);
      }
      if Handled(s, items[0], fails[0], seen) {
        var docs, more := NextDocs(s, items[0], acc).value, seen + items[0].rows;
        NextCollected(s, items[0], seen, acc);
        ErrorExactly(s, items[1..], fails[1..], table, docs, more);
        ErrorExactly(s, items[1..], fails[1..], DeleteById(table, docs), docs, more);
      }
    }
  }

  /** A DELETE leaves a table alone exactly when no row has one of the ids. */
  lemma {:induction false} DeleteKeepsExactly(table: seq<Row>, docs: seq<Row>)
    ensures DeleteById(table, docs) == table <==> forall i :: 0 <= i < |table| ==> !HasId(docs, table[i].id)
  {
    if table == [] {
    } else {
      DeleteKeepsExactly(table[1..], docs);
      assert forall i :: 0 <= i < |table| - 1 ==> table[1..][i] == table[i + 1];
      assert forall i :: 1 <= i < |table| ==> table[i] == table[1..][i - 1];
      assert table == [table[0]] + table[1..];
      if HasId(docs, table[0].id) {
        assert |DeleteById(table, docs)| < |table|;
      }
    }
  }

  // --------------------------------------------------------- whole statements

  /** How a statement's transaction goes: refused before the scan, or scanned and then committed or not. */
  datatype Scan = Refused(error: Failure) | Scan(items: seq<Fetched>, fails: seq<bool>, commits: bool)
  {
    predicate Valid()
    {
      Scan? ==> |fails| == |items|
    }
  }

  /** `processQuery`. */
  function RunStatement(s: Statement, scan: Scan, table: seq<Row>): Effect
    requires scan.Valid()
  {
    match scan
    case Refused(e) => Effect(table, 0, Some(e))
    case Scan(items, fails, commits) =>
      var e := Process(s, items, fails, table, []);
      if e.error.None? && !commits then e.(error := Some(StoreError)) else e
  }

  /** The rows a statement was meant to delete among those it read before anything failed. */
  ghost function HandledTargets(s: Statement, scan: Scan): seq<Row>
    requires scan.Valid()
  {
    if scan.Refused? then []
    else Targets(s, RowsOf(scan.items[..HandledCount(s, scan.items, scan.fails, [])]))
  }

  /** Failed or not, a statement leaves the table alone exactly when no row has an id among the handled targets. */
  lemma StatementUnchangedExactly(s: Statement, scan: Scan, table: seq<Row>)
    requires scan.Valid()
    ensures RunStatement(s, scan, table).table == DeleteById(table, HandledTargets(s, scan))
    ensures RunStatement(s, scan, table).table == table <==>
              forall i :: 0 <= i < |table| ==> !HasId(HandledTargets(s, scan), table[i].id)
  {
    DeleteNothing(table);
    if scan.Scan? {
      var k := HandledCount(s, scan.items, scan.fails, []);
      ProcessRefines(s, scan.items, scan.fails, table, table, [], []);
      assert [] + RowsOf(scan.items[..k]) == RowsOf(scan.items[..k]);
    }
    DeleteKeepsExactly(table, HandledTargets(s, scan));
  }

  /** A batch that is deleted and then a broken fetch: the statement fails, and its row is gone. */
  lemma FailedStatementDeletes(row: Row)
    ensures var s := Statement(_ => Success(true), 0);
            var e := Process(s, [Batch([row]), Broken], [false, false], [row], []);
            e.error == Some(FetchError) && e.table == [] && e.removed == 1
  {
    var s := Statement(_ => Success(true), 0);
    var items := [Batch([row]), Broken];
    assert [row][1..] == [] && [] + [row] == [row];
    assert Collect(s, [row], []) == Success([row]);
    assert NextDocs(s, items[0], []) == Success([row]);
    assert HasId([row], row.id) by {
      assert [row][0].id == row.id;
    }
    assert DeleteById([row], [row]) == [];
    assert items[1..] == [Broken] && [false, false][1..] == [false];
    assert Process(s, [Broken], [false], [], [row]) == Effect([], 0, Some(FetchError));
  }

  predicate DistinctIds(rows: seq<Row>)
  {
    forall i, j :: 0 <= i < j < |rows| ==> rows[i].id != rows[j].id
  }

  /** The simple form of a statement: drop the first `n` rows that match. */
  function DropFirst(s: Statement, rows: seq<Row>, n: nat): (kept: seq<Row>)
    ensures |kept| <= |rows|
  {
    if rows == [] then []
    else if n > 0 && s.matches(rows[0]) == Success(true) then DropFirst(s, rows[1..], n - 1)
    else [rows[0]] + DropFirst(s, rows[1..], n)
  }

  /** The quota of a statement on a table: no more than the table holds, when the limit is zero. */
  function Quota(s: Statement, rows: seq<Row>): nat
  {
    if s.limit > 0 then s.limit else |rows|
  }

  function Take(docs: seq<Row>, n: nat): seq<Row>
  {
    if n < |docs| then docs[..n] else docs
  }

  lemma HasIdCons(x: Row, docs: seq<Row>, id: bytes)
    ensures HasId([x] + docs, id) <==> x.id == id || HasId(docs, id)
  {
    var all := [x] + docs;
    assert all[0] == x && forall i :: 0 <= i < |docs| ==> all[i + 1] == docs[i];
  }

  lemma {:induction false} DeleteForeign(table: seq<Row>, x: Row, docs: seq<Row>)
    requires forall i :: 0 <= i < |table| ==> table[i].id != x.id
    ensures DeleteById(table, [x] + docs) == DeleteById(table, docs)
  {
    if table == [] {
    } else {
      DeleteForeign(table[1..], x, docs);
      HasIdCons(x, docs, table[0].id);
    }
  }

  lemma {:induction false} MatchingMembers(s: Statement, rows: seq<Row>)
    ensures |Matching(s, rows)| <= |rows|
    ensures forall d :: d in Matching(s, rows) ==> d in rows
  {
    if rows == [] {
    } else {
      MatchingMembers(s, rows[1..]);
    }
  }

  lemma DeleteHead(rows: seq<Row>, docs: seq<Row>)
    requires rows != [] && DistinctIds(rows)
    ensures DeleteById(rows, [rows[0]] + docs) == DeleteById(rows[1..], docs)
  {
    HasIdCons(rows[0], docs, rows[0].id);
    DeleteForeign(rows[1..], rows[0], docs);
  }

  lemma KeepHead(s: Statement, rows: seq<Row>, n: nat)
    requires rows != [] && DistinctIds(rows)
    ensures var docs := Take(Matching(s, rows[1..]), n);
            DeleteById(rows, docs) == [rows[0]] + DeleteById(rows[1..], docs)
  {
    var rest := Matching(s, rows[1..]);
    var docs := Take(rest, n);
    MatchingMembers(s, rows[1..]);
    forall i | 0 <= i < |docs|
      ensures docs[i].id != rows[0].id
    {
      assert docs[i] in rest;
    }
  }

  /** With distinct ids, deleting the first `n` matches by id drops exactly those rows. */
  lemma {:induction false} DeleteDropsFirst(s: Statement, rows: seq<Row>, n: nat)
    requires DistinctIds(rows)
    ensures DeleteById(rows, Take(Matching(s, rows), n)) == DropFirst(s, rows, n)
    ensures |DropFirst(s, rows, n)| == |rows| - |Take(Matching(s, rows), n)|
  {
    if rows == [] {
    } else {
      var rest := Matching(s, rows[1..]);
      if s.matches(rows[0]) == Success(true) && n > 0 {
        assert Take([rows[0]] + rest, n) == [rows[0]] + Take(rest, n - 1);
        DeleteHead(rows, Take(rest, n - 1));
        DeleteDropsFirst(s, rows[1..], n - 1);
      } else {
        assert Take(Matching(s, rows), n) == Take(rest, n);
        KeepHead(s, rows, n);
        DeleteDropsFirst(s, rows[1..], n);
      }
    }
  }

  /** A scan that reads the table as it is when the statement starts. */
  ghost predicate Snapshot(scan: Scan, table: seq<Row>)
  {
    scan.Scan? && RowsOf(scan.items) == table
  }

  /**
   On a snapshot of a collection whose ids are distinct, a statement that succeeds removes
   the first `limit` matching documents, or all of them, and nothing else.
   */
  lemma StatementRemovesTargets(s: Statement, scan: Scan, table: seq<Row>)
    requires scan.Valid() && Snapshot(scan, table) && DistinctIds(table)
    requires RunStatement(s, scan, table).error.None?
    ensures RunStatement(s, scan, table).table == DropFirst(s, table, Quota(s, table))
    ensures RunStatement(s, scan, table).removed == |Targets(s, table)|
  {
    var items, fails := scan.items, scan.fails;
    DeleteNothing(table);
    ProcessRefines(s, items, fails, table, table, [], []);
    StatementConserves(s, items, fails, table, []);
    assert items[..|items|] == items;
    assert [] + RowsOf(items) == table;
    MatchingMembers(s, table);
    LimitIsNotNegative(s, items, fails, table);
    assert Targets(s, table) == Take(Matching(s, table), Quota(s, table));
    DeleteDropsFirst(s, table, Quota(s, table));
  }

  lemma LimitIsNotNegative(s: Statement, items: seq<Fetched>, fails: seq<bool>, table: seq<Row>)
    requires |fails| == |items| && Process(s, items, fails, table, []).error.None?
    ensures items == [] || s.limit >= 0
  {
  }

  lemma {:induction false} DropKeepsDistinct(s: Statement, rows: seq<Row>, n: nat)
    requires DistinctIds(rows)
    ensures DistinctIds(DropFirst(s, rows, n))
    ensures forall r :: r in DropFirst(s, rows, n) ==> r in rows
  {
    if rows == [] {
    } else {
      if n > 0 && s.matches(rows[0]) == Success(true) {
        DropKeepsDistinct(s, rows[1..], n - 1);
      } else {
        DropKeepsDistinct(s, rows[1..], n);
        var kept := DropFirst(s, rows[1..], n);
        forall i | 0 <= i < |kept|
          ensures kept[i].id != rows[0].id
        {
          assert kept[i] in rows[1..];
        }
      }
    }
  }

  // ---------------------------------------------------------- whole commands

  /** A failed statement: its number in the command, and why. */
  datatype WriteError = WriteError(index: int, error: Failure)

  /** What a delete command leaves behind; `errors` holds the failed statements. */
  datatype Outcome = Outcome(table: seq<Row>, removed: nat, errors: seq<WriteError>)

  ghost predicate ValidScans(scans: seq<Scan>)
  {
    forall i :: 0 <= i < |scans| ==> scans[i].Valid()
  }

  /** The statements from number `i` on. */
  ghost function RunCommand(ordered: bool, statements: seq<Statement>, scans: seq<Scan>, i: nat, table: seq<Row>)
    : Outcome
    requires i <= |statements| == |scans| && ValidScans(scans)
    decreases |statements| - i
  {
    if i == |statements| then Outcome(table, 0, [])
    else
      var e := RunStatement(statements[i], scans[i], table);
      if e.error.Some? && ordered then Outcome(e.table, e.removed, [WriteError(i, e.error.value)])
      else
        var o := RunCommand(ordered, statements, scans, i + 1, e.table);
        var failed := if e.error.Some? then [WriteError(i, e.error.value)] else [];
        Outcome(o.table, e.removed + o.removed, failed + o.errors)
  }

  /** The rows that disappear are counted, over any mix of statements that succeed or fail. */
  lemma {:induction false} CommandConserves(ordered: bool, statements: seq<Statement>, scans: seq<Scan>, i: nat,
                                            table: seq<Row>)
    requires i <= |statements| == |scans| && ValidScans(scans)
    ensures var o := RunCommand(ordered, statements, scans, i, table);
            && |table| == |o.table| + o.removed
            && (ordered ==> |o.errors| <= 1)
    decreases |statements| - i
  {
    if i == |statements| {
    } else {
      var s, scan := statements[i], scans[i];
      if scan.Scan? {
        StatementConserves(s, scan.items, scan.fails, table, []);
      }
      CommandConserves(ordered, statements, scans, i + 1, RunStatement(s, scan, table).table);
    }
  }

  /** The table before statement `k`, when those from `i` on are all run. */
  ghost function TableAt(statements: seq<Statement>, scans: seq<Scan>, i: nat, k: nat, table: seq<Row>): seq<Row>
    requires i <= k <= |statements| == |scans| && ValidScans(scans)
    decreases k - i
  {
    if i == k then table else TableAt(statements, scans, i + 1, k, RunStatement(statements[i], scans[i], table).table)
  }

  /** Statement `k` as the command would run it. */
  ghost function EffectAt(statements: seq<Statement>, scans: seq<Scan>, i: nat, k: nat, table: seq<Row>): Effect
    requires i <= k < |statements| == |scans| && ValidScans(scans)
  {
    RunStatement(statements[k], scans[k], TableAt(statements, scans, i, k, table))
  }

  /** An ordered command ends with its first failing statement: the table is the one that statement leaves. */
  lemma {:induction false} OrderedStops(statements: seq<Statement>, scans: seq<Scan>, i: nat, table: seq<Row>)
    requires i <= |statements| == |scans| && ValidScans(scans)
    ensures var o := RunCommand(true, statements, scans, i, table);
            if o.errors == [] then
              && (forall j :: i <= j < |statements| ==> EffectAt(statements, scans, i, j, table).error.None?)
              && o.table == TableAt(statements, scans, i, |statements|, table)
            else
              var k := o.errors[0].index;
              && |o.errors| == 1 && i <= k < |statements|
              && (forall j :: i <= j < k ==> EffectAt(statements, scans, i, j, table).error.None?)
              && EffectAt(statements, scans, i, k, table).error == Some(o.errors[0].error)
              && o.table == EffectAt(statements, scans, i, k, table).table
    decreases |statements| - i
  {
    if i == |statements| {
    } else {
      var e := RunStatement(statements[i], scans[i], table);
      OrderedStops(statements, scans, i + 1, e.table);
      var rest := RunCommand(true, statements, scans, i + 1, e.table);
      assert [] + rest.errors == rest.errors;
      assert forall j :: i < j < |statements| ==>
        EffectAt(statements, scans, i, j, table) == EffectAt(statements, scans, i + 1, j, e.table);
    }
  }

  /** An unordered command runs every statement, and its errors are those of exactly the failing ones, in order. */
  lemma {:induction false} UnorderedRunsAll(statements: seq<Statement>, scans: seq<Scan>, i: nat, table: seq<Row>)
    requires i <= |statements| == |scans| && ValidScans(scans)
    ensures var o := RunCommand(false, statements, scans, i, table);
            && o.table == TableAt(statements, scans, i, |statements|, table)
            && (forall w :: w in o.errors <==>
                  i <= w.index < |statements| && EffectAt(statements, scans, i, w.index, table).error == Some(w.error))
    decreases |statements| - i
  {
    if i == |statements| {
    } else {
      var e := RunStatement(statements[i], scans[i], table);
      UnorderedRunsAll(statements, scans, i + 1, e.table);
      assert forall j :: i < j < |statements| ==>
        EffectAt(statements, scans, i, j, table) == EffectAt(statements, scans, i + 1, j, e.table);
    }
  }

  lemma CommandStep(ordered: bool, statements: seq<Statement>, scans: seq<Scan>, i: nat, table: seq<Row>,
                    errors: seq<WriteError>)
    requires i < |statements| == |scans| && ValidScans(scans)
    ensures var e := RunStatement(statements[i], scans[i], table);
            var o := RunCommand(ordered, statements, scans, i, table);
            var rest := RunCommand(ordered, statements, scans, i + 1, e.table);
            var errors' := if e.error.Some? then errors + [WriteError(i, e.error.value)] else errors;
            if e.error.Some? && ordered then
              o.table == e.table && o.removed == e.removed && errors + o.errors == errors'
            else
              && o.table == rest.table
              && o.removed == e.removed + rest.removed
              && errors + o.errors == errors' + rest.errors
  {
    var e := RunStatement(statements[i], scans[i], table);
    var rest := RunCommand(ordered, statements, scans, i + 1, e.table);
    assert [] + rest.errors == rest.errors;
    if e.error.Some? {
      var w := WriteError(i, e.error.value);
      assert errors + ([w] + rest.errors) == errors + [w] + rest.errors;
    }
  }

  /** Every statement's simple form, one after the other. */
  ghost function DropAll(statements: seq<Statement>, i: nat, table: seq<Row>): seq<Row>
    requires i <= |statements|
    decreases |statements| - i
  {
    if i == |statements| then table
    else DropAll(statements, i + 1, DropFirst(statements[i], table, Quota(statements[i], table)))
  }

  /** Every statement reads the table its predecessors left. */
  ghost predicate Snapshots(statements: seq<Statement>, scans: seq<Scan>, i: nat, table: seq<Row>)
    requires i <= |statements| == |scans| && ValidScans(scans)
    decreases |statements| - i
  {
    i < |statements| ==>
      && Snapshot(scans[i], table)
      && Snapshots(statements, scans, i + 1, RunStatement(statements[i], scans[i], table).table)
  }

  /** A command without errors does what its statements' simple forms do one after the other. */
  lemma {:induction false} CommandRefines(ordered: bool, statements: seq<Statement>, scans: seq<Scan>, i: nat,
                                          table: seq<Row>)
    requires i <= |statements| == |scans| && ValidScans(scans)
    requires DistinctIds(table) && Snapshots(statements, scans, i, table)
    requires RunCommand(ordered, statements, scans, i, table).errors == []
    ensures RunCommand(ordered, statements, scans, i, table).table == DropAll(statements, i, table)
    decreases |statements| - i
  {
    if i == |statements| {
    } else {
      var s := statements[i];
      assert RunStatement(s, scans[i], table).error.None?;
      StatementRemovesTargets(s, scans[i], table);
      DropKeepsDistinct(s, table, Quota(s, table));
      CommandRefines(ordered, statements, scans, i + 1, RunStatement(s, scans[i], table).table);
    }
  }

  // ------------------------------------------------------------- imperative

  function Wraps(q: int): int
  {
    q * 0x1_0000_0000
  }

  /** A 32-bit counter that has counted up to `n`. */
  ghost predicate Counts(counter: int32, n: nat)
  {
    exists q: int :: n == counter + Wraps(q)
  }

  lemma CountsTruncates(counter: int32, n: nat)
    requires Counts(counter, n)
    ensures counter == ToInt32(n)
  {
    var q: int :| n == counter + Wraps(q);
  }

  /** `deleted += int32(k)`. */
  method AddCount(counter: int32, k: nat, ghost n: nat) returns (counter': int32)
    requires Counts(counter, n)
    ensures Counts(counter', n + k)
  {
    var k' := ToInt32(k);
    counter' := ToInt32(counter + k');
    ghost var q: int :| n == counter + Wraps(q);
    assert k == k' + Wraps((k - k') / 0x1_0000_0000);
    assert counter + k' == counter' + Wraps((counter + k' - counter') / 0x1_0000_0000);
    assert n + k == counter' + Wraps(q + (k - k') / 0x1_0000_0000 + (counter + k' - counter') / 0x1_0000_0000);
  }

  /** The stored collection and the counter of the reply. */
  class Collection {
    var rows: seq<Row>
    var deleted: int32

    /** `h.delete`. */
    method DeleteByIds(docs: seq<Row>) returns (n: nat)
      modifies `rows
      ensures rows == DeleteById(old(rows), docs)
      ensures n == |old(rows)| - |rows|
    {
      var kept := DeleteById(rows, docs);
      n := |rows| - |kept|;
      rows := kept;
    }

    /** The scan of one statement, message by message. */
    method ProcessItems(s: Statement, items: seq<Fetched>, fails: seq<bool>, ghost before: nat)
      returns (error: Option<Failure>)
      requires |fails| == |items| && Counts(deleted, before)
      modifies this
      ensures var e := Process(s, items, fails, old(rows), []);
              && rows == e.table
              && error == e.error
              && Counts(deleted, before + e.removed)
    {
      var resDocs: seq<Row> := [];
      ghost var removed: nat := 0;
      ghost var whole := Process(s, items, fails, rows, []);
      for i := 0 to |items|
        invariant Counts(deleted, before + removed)
        invariant var e := Process(s, items[i..], fails[i..], rows, resDocs);
                  whole == e.(removed := removed + e.removed)
      {
        assert items[i..][0] == items[i] && items[i..][1..] == items[i + 1..];
        assert fails[i..][0] == fails[i] && fails[i..][1..] == fails[i + 1..];
        var next := NextBatch(s, items[i], resDocs);
        if next.Failure? {
          return Some(next.error);
        }
        resDocs := next.value;
        if resDocs != [] {
          if fails[i] {
            return Some(StoreError);
          }
          var n := DeleteByIds(resDocs);
          deleted := AddCount(deleted, n, before + removed);
          removed := removed + n;
        }
      }
      return None;
    }

    /** One statement in its transaction. */
    method ProcessQuery(s: Statement, scan: Scan, ghost before: nat) returns (error: Option<Failure>)
      requires scan.Valid() && Counts(deleted, before)
      modifies this
      ensures var e := RunStatement(s, scan, old(rows));
              && rows == e.table
              && error == e.error
              && Counts(deleted, before + e.removed)
    {
      if scan.Refused? {
        return Some(scan.error);
      }
      error := ProcessItems(s, scan.items, scan.fails, before);
      if error.None? && !scan.commits {
        error := Some(StoreError);
      }
    }

    /** One turn of the loop over the statements. */
    method ProcessNext(ordered: bool, statements: seq<Statement>, scans: seq<Scan>, i: nat, was: seq<WriteError>,
                       ghost before: nat)
      returns (stop: bool, errors: seq<WriteError>, ghost removed: nat)
      requires i < |statements| == |scans| && ValidScans(scans) && Counts(deleted, before)
      modifies this
      ensures Counts(deleted, removed)
      ensures var o := RunCommand(ordered, statements, scans, i, old(rows));
              var rest := if stop then Outcome(rows, 0, []) else RunCommand(ordered, statements, scans, i + 1, rows);
              SoFar(o, before, was) == SoFar(rest, removed, errors)
    {
      ghost var e := RunStatement(statements[i], scans[i], rows);
      CommandStep(ordered, statements, scans, i, rows, was);
      var error := ProcessQuery(statements[i], scans[i], before);
      removed := before + e.removed;
      errors := if error.Some? then was + [WriteError(i, error.value)] else was;
      stop := error.Some? && ordered;
      assert errors + [] == errors;
    }

    /** The whole command: `n` in the reply is the number of rows that disappeared, as an int32. */
    method Delete(ordered: bool, statements: seq<Statement>, scans: seq<Scan>) returns (errors: seq<WriteError>)
      requires |scans| == |statements| && ValidScans(scans)
      modifies this
      ensures var o := RunCommand(ordered, statements, scans, 0, old(rows));
              rows == o.table && errors == o.errors
      ensures |rows| <= |old(rows)| && deleted == ToInt32(|old(rows)| - |rows|)
    {
      errors := ProcessAll(ordered, statements, scans);
      CountsTruncates(deleted, |old(rows)| - |rows|);
    }

    /** The loop over the statements. */
    method ProcessAll(ordered: bool, statements: seq<Statement>, scans: seq<Scan>) returns (errors: seq<WriteError>)
      requires |scans| == |statements| && ValidScans(scans)
      modifies this
      ensures var o := RunCommand(ordered, statements, scans, 0, old(rows));
              rows == o.table && errors == o.errors
      ensures |rows| <= |old(rows)| && Counts(deleted, |old(rows)| - |rows|)
    {
      deleted, errors := 0, [];
      ghost var whole := RunCommand(ordered, statements, scans, 0, rows);
      ghost var removed: nat := 0;
      assert 0 == deleted + Wraps(0);
      assert [] + whole.errors == whole.errors;
      CommandConserves(ordered, statements, scans, 0, rows);
      var i, stop := 0, false;
      while i < |statements| && !stop
        invariant i <= |statements|
        invariant Counts(deleted, removed)
        invariant var rest := if stop then Outcome(rows, 0, []) else RunCommand(ordered, statements, scans, i, rows);
                  whole == SoFar(rest, removed, errors)
      {
        stop, errors, removed := ProcessNext(ordered, statements, scans, i, errors, removed);
        i := i + 1;
      }
      assert errors + [] == errors;
    }
  }

  /** The outcome of what is left, after what was removed and what failed before. */
  ghost function SoFar(rest: Outcome, removed: nat, errors: seq<WriteError>): Outcome
  {
    Outcome(rest.table, removed + rest.removed, errors + rest.errors)
  }

  /** What to delete after one more message. */
  method NextBatch(s: Statement, item: Fetched, acc: seq<Row>) returns (r: Result<seq<Row>, Failure>)
    ensures r == NextDocs(s, item, acc)
  {
    if item.Broken? {
      return Failure(FetchError);
    }
    var docs :- CollectBatch(s, item.rows, acc);
    return LimitDocuments(docs, s.limit);
  }

  /** The inner loop over the documents of a batch. */
  method CollectBatch(s: Statement, rows: seq<Row>, acc: seq<Row>) returns (r: Result<seq<Row>, Failure>)
    ensures r == Collect(s, rows, acc)
  {
    var docs := acc;
    for i := 0 to |rows|
      invariant Collect(s, rows, acc) == Collect(s, rows[i..], docs)
    {
      assert rows[i..][0] == rows[i] && rows[i..][1..] == rows[i + 1..];
      var m := s.matches(rows[i]);
      if m.Failure? {
        return Failure(m.error);
      }
      if m.value {
        docs := docs + [rows[i]];
      }
    }
    return Success(docs);
  }
}
