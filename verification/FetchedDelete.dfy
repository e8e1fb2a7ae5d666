/** A delete statement on what the fetch protocol delivers, under every interleaving. */
module FetchedDelete {
  import opened Bytes
  import opened Values
  import opened Wrappers
  import Fetch
  import FetchSafety
  import opened Deletion

  /** A stored row: its document under the JSON of its "_id". */
  function RowOf(id: Fields -> bytes, doc: Fields): Row
  {
    Row(id(doc), doc)
  }

  function TableOf(id: Fields -> bytes, docs: seq<Fields>): (rows: seq<Row>)
    ensures |rows| == |docs|
  {
    seq(|docs|, i requires 0 <= i < |docs| => RowOf(id, docs[i]))
  }

  /** The query yields the rows of the table, all of them readable. */
  function SourceOf(docs: seq<Fields>): Fetch.Source
  {
    Fetch.Source(seq(|docs|, i requires 0 <= i < |docs| => Fetch.Good(docs[i])), false)
  }

  /** The messages of the channel as the delete handler sees them. */
  function ItemsOf(id: Fields -> bytes, sent: seq<Fetch.Message>): (items: seq<Fetched>)
    ensures |items| == |sent|
  {
    seq(|sent|, i requires 0 <= i < |sent| =>
      if sent[i].Batch? then Batch(TableOf(id, sent[i].docs)) else Broken)
  }

  lemma TableOfConcat(id: Fields -> bytes, a: seq<Fields>, b: seq<Fields>)
    ensures TableOf(id, a + b) == TableOf(id, a) + TableOf(id, b)
  {
  }

  lemma {:induction false} RowsOfAppend(items: seq<Fetched>, item: Fetched)
    ensures RowsOf(items + [item]) == RowsOf(items) + if item.Batch? then item.rows else []
  {
    if items == [] {
      assert items + [item] == [item] && [item][1..] == [];
    } else {
      assert (items + [item])[0] == items[0] && (items + [item])[1..] == items[1..] + [item];
      RowsOfAppend(items[1..], item);
    }
  }

  lemma {:induction false} ItemsHoldDocs(id: Fields -> bytes, sent: seq<Fetch.Message>)
    ensures RowsOf(ItemsOf(id, sent)) == TableOf(id, Fetch.DocsOf(sent))
  {
    if sent == [] {
    } else {
      var n := |sent| - 1;
      var m := sent[n];
      ItemsHoldDocs(id, sent[..n]);
      var items := ItemsOf(id, sent);
      assert items == ItemsOf(id, sent[..n]) + [items[n]];
      RowsOfAppend(ItemsOf(id, sent[..n]), items[n]);
      TableOfConcat(id, Fetch.DocsOf(sent[..n]), if m.Batch? then m.docs else []);
    }
  }

  /** The run was followed to its end: nobody cancelled and the handler did not stop. */
  ghost predicate Undisturbed(docs: seq<Fields>, steps: seq<Fetch.Step>)
  {
    var start := Fetch.Init(SourceOf(docs), true);
    Fetch.Runs(start, steps) &&
    var s := Fetch.After(start, steps);
    s.consumer.Finished? && !s.cancelled && !s.stopped
  }

  /** What the delete handler was given in such a run is a snapshot of the table, however the steps were interleaved. */
  lemma FetchIsSnapshot(id: Fields -> bytes, docs: seq<Fields>, steps: seq<Fetch.Step>, fails: seq<bool>, commits: bool)
    requires Undisturbed(docs, steps)
    ensures var sent := Fetch.After(Fetch.Init(SourceOf(docs), true), steps).sent;
            Snapshot(Scan(ItemsOf(id, sent), fails, commits), TableOf(id, docs))
  {
    var source := SourceOf(docs);
    var s := Fetch.After(Fetch.Init(source, true), steps);
    NoneBad(docs);
    FetchSafety.Delivery(source, true, steps);
    Fetch.InitInv(source, true);
    FetchSafety.RunInv(Fetch.Init(source, true), steps);
    FetchSafety.ReceivedAll(s);
    ItemsHoldDocs(id, s.sent);
    assert forall i :: 0 <= i < |docs| ==> source.rows[i] == Fetch.Good(docs[i]) == Fetch.Good(s.received[i]);
    assert s.received == docs;
  }

  lemma NoneBad(docs: seq<Fields>)
    ensures FetchSafety.FirstBad(SourceOf(docs).rows) == |docs|
  {
    assert forall i :: 0 <= i < |docs| ==> SourceOf(docs).rows[i].Good?;
  }

  /**
   Under every interleaving of producer, channel and handler, a delete statement that succeeds
   removes exactly the first `limit` matching documents of the table, or all of them.
   */
  lemma DeleteUnderEveryInterleaving(id: Fields -> bytes, docs: seq<Fields>, steps: seq<Fetch.Step>, s: Statement,
                                     fails: seq<bool>, commits: bool)
    requires Undisturbed(docs, steps) && DistinctIds(TableOf(id, docs))
    requires var sent := Fetch.After(Fetch.Init(SourceOf(docs), true), steps).sent;
             && |fails| == |sent|
             && RunStatement(s, Scan(ItemsOf(id, sent), fails, commits), TableOf(id, docs)).error.None?
    ensures var sent := Fetch.After(Fetch.Init(SourceOf(docs), true), steps).sent;
            var table := TableOf(id, docs);
            var e := RunStatement(s, Scan(ItemsOf(id, sent), fails, commits), table);
            e.table == DropFirst(s, table, Quota(s, table)) && e.removed == |Targets(s, table)|
  {
    var sent := Fetch.After(Fetch.Init(SourceOf(docs), true), steps).sent;
    FetchIsSnapshot(id, docs, steps, fails, commits);
    StatementRemovesTargets(s, Scan(ItemsOf(id, sent), fails, commits), TableOf(id, docs));
  }
}
