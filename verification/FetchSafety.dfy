/** What every interleaving of the fetch protocol keeps, and that every run comes to an end. */
module FetchSafety {
  import opened Values
  import opened Fetch

  lemma DocsOfAppend(ms: seq<Message>, m: Message)
    ensures DocsOf(ms + [m]) == DocsOf(ms) + if m.Batch? then m.docs else []
  {
    assert (ms + [m])[..|ms|] == ms;
  }

  // ---------------------------------------------------------------- producer

  /** The step is the producer's own and touches neither the channel nor the consumer. */
  predicate ProducerOnly(s: State, t: State)
  {
    && t == s.(producer := t.producer, next := t.next, interrupted := t.interrupted)
    && !s.producer.Closed?
  }

  lemma ProducerOnlyInv(s: State, t: State)
    requires Inv(s) && ProducerOnly(s, t)
    ensures ErrorLast(t) && ChannelInv(t)
  {
    assert forall i :: 0 <= i < |s.sent| ==> s.sent[i].Batch?;
  }

  lemma ReadRowInv(s: State)
    requires Inv(s) && s.producer.Filling?
    ensures Inv(ReadRow(s))
  {
    var t := ReadRow(s);
    ProducerOnlyInv(s, t);
    if |s.producer.res| >= SLICE_CAPACITY || s.next >= |s.source.rows| {
      assert Produced(t) == Produced(s);
    } else if s.source.rows[s.next].Good? {
      GoodRowInv(s, t);
    } else {
      BadRowInv(s, t);
    }
  }

  lemma GoodRowInv(s: State, t: State)
    requires Inv(s) && s.producer.Filling? && |s.producer.res| < SLICE_CAPACITY
    requires s.next < |s.source.rows| && s.source.rows[s.next].Good?
    requires t == ReadRow(s)
    ensures Batches(t) && ProducerInv(t)
  {
    var doc := s.source.rows[s.next].doc;
    assert Produced(t) == Produced(s) + [doc];
  }

  lemma BadRowInv(s: State, t: State)
    requires Inv(s) && s.producer.Filling? && |s.producer.res| < SLICE_CAPACITY
    requires s.next < |s.source.rows| && s.source.rows[s.next].Bad?
    requires t == ReadRow(s)
    ensures Batches(t) && ProducerInv(t)
  {
    var docs := DocsOf(s.sent);
    assert Produced(t) == docs;
    assert s.next == |docs| + |s.producer.res|;
    assert forall i :: 0 <= i < |docs| ==> Produced(s)[i] == docs[i];
    if |s.producer.res| == 1 {
      assert s.source.rows[|docs|] == Good(Produced(s)[|docs|]);
    }
  }

  lemma InterruptInv(s: State)
    requires Inv(s) && Enabled(s, Interrupt)
    ensures Inv(Apply(s, Interrupt))
  {
    var t := Apply(s, Interrupt);
    ProducerOnlyInv(s, t);
    assert Produced(t) == Produced(s);
  }

  lemma LoopInv(s: State, step: Step)
    requires Inv(s) && Enabled(s, step) && (step.Check? || step.End?)
    ensures Inv(Apply(s, step))
  {
    var t := Apply(s, step);
    ProducerOnlyInv(s, t);
    assert Produced(t) == Produced(s);
  }

  lemma GiveUpInv(s: State)
    requires Inv(s) && Enabled(s, GiveUp)
    ensures Inv(Apply(s, GiveUp))
  {
    var t := Apply(s, GiveUp);
    ProducerOnlyInv(s, t);
    assert forall i :: 0 <= i < |Produced(t)| ==> Produced(t)[i] == Produced(s)[i];
  }

  lemma SendInv(s: State)
    requires Inv(s) && Enabled(s, Send)
    ensures Inv(Apply(s, Send))
  {
    var t := Apply(s, Send);
    SendChannelInv(s, t);
    SendProducerInv(s, t);
  }

  lemma SendChannelInv(s: State, t: State)
    requires Inv(s) && Enabled(s, Send) && t == Apply(s, Send)
    ensures ChannelInv(t) && ErrorLast(t)
  {
    assert forall i :: 0 <= i < |s.sent| ==> s.sent[i].Batch?;
    assert t.sent[s.taken..] == s.sent[s.taken..] + [t.sent[|s.sent|]];
    assert t.sent[..s.kept] == s.sent[..s.kept];
  }

  lemma SendProducerInv(s: State, t: State)
    requires Inv(s) && Enabled(s, Send) && t == Apply(s, Send)
    ensures ProducerInv(t) && Batches(t)
  {
    DocsOfAppend(s.sent, t.sent[|s.sent|]);
    if s.producer.Sending? {
      SentBatchInv(s, t);
    } else {
      SentErrorInv(s, t);
    }
  }

  lemma SentBatchInv(s: State, t: State)
    requires Batches(s) && ProducerInv(s) && Enabled(s, Send) && t == Apply(s, Send) && s.producer.Sending?
    requires DocsOf(t.sent) == DocsOf(s.sent) + s.producer.res
    ensures ProducerInv(t) && Batches(t)
  {
    assert Produced(t) == Produced(s);
    assert t.sent == s.sent + [Batch(s.producer.res)];
  }

  lemma SentErrorInv(s: State, t: State)
    requires Batches(s) && ProducerInv(s) && Enabled(s, Send) && t == Apply(s, Send) && s.producer.SendingError?
    requires DocsOf(t.sent) == DocsOf(s.sent) + []
    ensures ProducerInv(t) && Batches(t)
  {
    assert Produced(t) == Produced(s);
    assert t.sent == s.sent + [Error];
  }

  // ---------------------------------------------------------------- consumer

  lemma TakeInv(s: State, step: Step)
    requires Inv(s) && Enabled(s, step) && (step.Take? || step.Drain?)
    ensures Inv(Apply(s, step))
  {
    var t := TakeMessage(s);
    TakeProducerInv(s, t);
    TakeChannelInv(s, t);
  }

  lemma TakeProducerInv(s: State, t: State)
    requires Batches(s) && ErrorLast(s) && ProducerInv(s) && s.channel != [] && t == TakeMessage(s)
    ensures Batches(t) && ErrorLast(t) && ProducerInv(t)
  {
    assert t.sent == s.sent && t.producer == s.producer && t.next == s.next && t.source == s.source;
    assert t.cancelled == s.cancelled && t.interrupted == s.interrupted;
  }

  lemma TakeChannelInv(s: State, t: State)
    requires Inv(s) && s.channel != [] && !s.consumer.Finished? && t == TakeMessage(s)
    ensures ChannelInv(t)
  {
    assert s.channel[0] == s.sent[s.taken];
    assert s.sent[s.taken..][1..] == s.sent[s.taken + 1..];
    if s.consumer.Receiving? {
      if s.channel[0].Batch? {
        TakeBatchInv(s, t);
      } else {
        TakeErrorInv(s, t);
      }
    }
  }

  lemma TakeBatchInv(s: State, t: State)
    requires ChannelInv(s) && s.channel != [] && s.consumer.Receiving? && s.channel[0].Batch? && t == TakeMessage(s)
    requires s.channel[0] == s.sent[s.taken] && t.channel == s.sent[s.taken + 1..]
    ensures ChannelInv(t)
  {
    assert s.sent[..s.kept + 1] == s.sent[..s.kept] + [s.channel[0]];
    DocsOfAppend(s.sent[..s.kept], s.channel[0]);
  }

  lemma TakeErrorInv(s: State, t: State)
    requires ChannelInv(s) && s.channel != [] && s.consumer.Receiving? && s.channel[0].Error? && t == TakeMessage(s)
    requires s.channel[0] == s.sent[s.taken] && t.channel == s.sent[s.taken + 1..]
    ensures ChannelInv(t)
  {
    assert s.sent[..s.kept + 1] == s.sent[..s.kept] + [s.channel[0]];
    DocsOfAppend(s.sent[..s.kept], s.channel[0]);
  }

  lemma ConsumerInv(s: State, step: Step)
    requires Inv(s) && Enabled(s, step) && (step.Stop? || step.Finish? || step.Cancel?)
    ensures Inv(Apply(s, step))
  {
  }

  // -------------------------------------------------------------- whole runs

  /** Every step keeps the invariant. */
  lemma StepInv(s: State, step: Step)
    requires Inv(s) && Enabled(s, step)
    ensures Inv(Apply(s, step)) && Apply(s, step).source == s.source
  {
    match step
    case Next => ReadRowInv(s);
    case Interrupt => InterruptInv(s);
    case GiveUp => GiveUpInv(s);
    case Send => SendInv(s);
    case Check => LoopInv(s, step);
    case End => LoopInv(s, step);
    case Take => TakeInv(s, step);
    case Drain => TakeInv(s, step);
    case _ => ConsumerInv(s, step);
  }

  lemma {:induction false} RunInv(s: State, steps: seq<Step>)
    requires Inv(s) && Runs(s, steps)
    ensures Inv(After(s, steps))
    ensures After(s, steps).source == s.source
    decreases |steps|
  {
    if steps == [] {
    } else {
      var t := Apply(s, steps[0]);
      StepInv(s, steps[0]);
      assert After(s, steps) == After(t, steps[1..]);
      RunInv(t, steps[1..]);
    }
  }

  lemma {:induction false} DocsOfPrefix(ms: seq<Message>, k: nat)
    requires k <= |ms|
    ensures DocsOf(ms[..k]) <= DocsOf(ms)
  {
    if k == |ms| {
      assert ms[..k] == ms;
    } else {
      DocsOfPrefix(ms[..|ms| - 1], k);
      assert ms[..|ms| - 1][..k] == ms[..k];
    }
  }

  /**
   Safety of every interleaving: what the handler was given is a prefix of the rows, in order
   and without gap or repetition; every batch holds one or two documents; an error is the last
   message ever sent; and the channel never overfills.
   */
  lemma Safety(source: Source, present: bool, steps: seq<Step>)
    requires Starts(source, present) && Runs(Init(source, present), steps)
    ensures var s := After(Init(source, present), steps);
            && FirstRows(s.received, source.rows)
            && |s.channel| <= 3
            && (forall m :: m in s.sent && m.Batch? ==> 1 <= |m.docs| <= 2)
            && (forall i :: 0 <= i < |s.sent| && s.sent[i].Error? ==> i == |s.sent| - 1)
  {
    var s := After(Init(source, present), steps);
    InitInv(source, present);
    RunInv(Init(source, present), steps);
    DocsOfPrefix(s.sent, s.kept);
    assert s.received <= Produced(s);
  }

  /** Two good rows are read into a batch and sent while the handler does not receive. */
  lemma SendsTwo(s: State) returns (steps: seq<Step>)
    requires s.producer.AtLoop? && !s.cancelled && |s.channel| < 3 && s.next + 2 <= |s.source.rows|
    requires s.source.rows[s.next].Good? && s.source.rows[s.next + 1].Good?
    ensures |steps| == 5 && Runs(s, steps)
    ensures var t := After(s, steps);
            && t.producer.AtLoop? && !t.cancelled && t.source == s.source && t.next == s.next + 2
            && t.received == s.received
            && t.channel == s.channel + [Batch([s.source.rows[s.next].doc, s.source.rows[s.next + 1].doc])]
  {
    steps := [Check, Next, Next, Next, Send];
    var a, b := s.source.rows[s.next].doc, s.source.rows[s.next + 1].doc;
    var s1 := Apply(s, Check);
    var s2 := Apply(s1, Next);
    var s3 := Apply(s2, Next);
    assert s3.producer == Filling([a, b]);
    var s4 := Apply(s3, Next);
    assert steps[1..] == [Next, Next, Next, Send] && steps[1..][1..] == [Next, Next, Send];
    assert [Next, Next, Send][1..] == [Next, Send] && [Next, Send][1..] == [Send] && [Send][1..] == [];
    assert Runs(s4, [Send]) && After(s4, [Send]) == Apply(s4, Send);
    assert Runs(s3, [Next, Send]) && Runs(s2, [Next, Next, Send]) && Runs(s1, [Next, Next, Next, Send]);
  }

  lemma {:induction false} RunsOn(s: State, a: seq<Step>, b: seq<Step>)
    requires Runs(s, a) && Runs(After(s, a), b)
    ensures Runs(s, a + b) && After(s, a + b) == After(After(s, a), b)
    decreases |a|
  {
    if a == [] {
      assert a + b == b;
    } else {
      assert (a + b)[0] == a[0] && (a + b)[1..] == a[1..] + b;
      RunsOn(Apply(s, a[0]), a[1..], b);
    }
  }

  /** The goroutine runs ahead of the handler by three batches of two rows, and the bound of `Safety` is reached. */
  lemma RunsAhead(source: Source) returns (steps: seq<Step>)
    requires |source.rows| >= 6 && forall i :: 0 <= i < 6 ==> source.rows[i].Good?
    ensures Runs(Init(source, true), steps)
    ensures var s := After(Init(source, true), steps); |s.channel| == 3 && s.received == []
  {
    var s := Init(source, true);
    var a := SendsTwo(s);
    var b := SendsTwo(After(s, a));
    RunsOn(s, a, b);
    var c := SendsTwo(After(s, a + b));
    RunsOn(s, a + b, c);
    steps := a + b + c;
  }

  /** The first bad row, or the number of rows. */
  function FirstBad(rows: seq<Row>): (b: nat)
    ensures b <= |rows|
    ensures b < |rows| ==> rows[b].Bad?
    ensures forall i :: 0 <= i < b ==> rows[i].Good?
  {
    if rows == [] || rows[0].Bad? then 0 else 1 + FirstBad(rows[1..])
  }

  /** How many rows an undisturbed fetch delivers: a good row that shares its batch with a bad one is lost. */
  function Deliverable(source: Source): nat
  {
    var b := FirstBad(source.rows);
    if b == |source.rows| then b else b - b % 2
  }

  lemma FailsWhere(source: Source, docs: seq<Fields>)
    requires FirstRows(docs, source.rows) && MustFail(source, |docs|)
    ensures |docs| == Deliverable(source)
    ensures FirstBad(source.rows) < |source.rows| || source.tailErr
  {
    var n, b := |docs|, FirstBad(source.rows);
    assert forall i :: 0 <= i < n ==> source.rows[i].Good?;
    assert n <= b;
  }

  lemma SucceedsWhere(source: Source, docs: seq<Fields>)
    requires FirstRows(docs, source.rows) && |docs| == |source.rows|
    ensures |docs| == Deliverable(source) && FirstBad(source.rows) == |source.rows|
  {
    assert forall i :: 0 <= i < |docs| ==> source.rows[i].Good?;
  }

  /**
   An uncancelled fetch that the handler followed to its end delivered exactly the deliverable
   rows, and reported an error exactly when there was one.
   */
  lemma Delivery(source: Source, present: bool, steps: seq<Step>)
    requires Starts(source, present) && Runs(Init(source, present), steps)
    requires var s := After(Init(source, present), steps); s.consumer.Finished? && !s.cancelled && !s.stopped
    ensures var s := After(Init(source, present), steps);
            && FirstRows(s.received, source.rows)
            && |s.received| == Deliverable(source)
            && (s.failed <==> FirstBad(source.rows) < |source.rows| || source.tailErr)
  {
    var s := After(Init(source, present), steps);
    InitInv(source, present);
    RunInv(Init(source, present), steps);
    Safety(source, present, steps);
    ReceivedAll(s);
    if s.failed {
      FailsWhere(source, s.received);
    } else {
      SucceedsWhere(source, s.received);
    }
  }

  lemma ReceivedAll(s: State)
    requires Inv(s) && s.consumer.Finished? && !s.stopped
    ensures s.received == DocsOf(s.sent) == Produced(s)
    ensures s.failed <==> s.sent != [] && s.sent[|s.sent| - 1].Error?
  {
    if s.failed {
      assert s.sent[s.kept - 1].Error?;
      assert s.kept == |s.sent|;
    }
    assert s.sent[..s.kept] == s.sent;
  }

  // ---------------------------------------------------------------- progress

  /** In every state that is not finished, the producer or the consumer can move without help. */
  lemma NeverStuck(s: State) returns (step: Step)
    requires Inv(s) && !s.consumer.Finished?
    ensures Enabled(s, step) && !step.Cancel? && !step.Stop?
  {
    match s.producer
    case AtLoop => step := Check;
    case Filling(_) => step := Next;
    case AtEnd => step := End;
    case _ =>
      if s.channel != [] {
        step := if s.consumer.Receiving? then Take else Drain;
      } else {
        step := if s.producer.Closed? then Finish else Send;
      }
  }

  function ProducerRank(p: Producer): nat
  {
    match p
    case AtLoop => 5
    case Filling(res) => 4 + 5 * |res|
    case Sending(res, _) => 3 + 5 * |res|
    case AtEnd => 3
    case SendingError => 2
    case Closed => 0
  }

  function Rank(s: State): nat
    requires s.next <= |s.source.rows|
  {
    10 * (|s.source.rows| - s.next) + ProducerRank(s.producer) + |s.channel| + ClientRank(s)
  }

  function ClientRank(s: State): nat
  {
    (match s.consumer case Receiving => 2 case Draining => 1 case Finished => 0) + (if s.cancelled then 0 else 1)
  }

  /** What the ranking needs of the invariant. */
  predicate Ranked(s: State)
  {
    s.next <= |s.source.rows| && (s.producer.Sending? ==> s.producer.res != [])
  }

  lemma StepRank(s: State, step: Step)
    requires Ranked(s) && Enabled(s, step)
    ensures Apply(s, step).next <= |s.source.rows|
    ensures Rank(Apply(s, step)) < Rank(s)
  {
    if step.Next? {
      ReadRowRank(s);
    } else if step.Take? || step.Drain? {
      TakeRank(s);
    }
  }

  lemma ReadRowRank(s: State)
    requires Ranked(s) && s.producer.Filling?
    ensures ReadRow(s).next <= |s.source.rows|
    ensures Rank(ReadRow(s)) < Rank(s)
  {
    var t := ReadRow(s);
    ReadRowKeeps(s, t);
    assert 10 * (|s.source.rows| - t.next) + ProducerRank(t.producer)
         < 10 * (|s.source.rows| - s.next) + ProducerRank(s.producer);
  }

  lemma ReadRowKeeps(s: State, t: State)
    requires s.producer.Filling? && t == ReadRow(s)
    ensures t.source == s.source && t.channel == s.channel && ClientRank(t) == ClientRank(s)
  {
  }

  lemma TakeRank(s: State)
    requires Ranked(s) && s.channel != []
    ensures Rank(TakeMessage(s)) < Rank(s)
  {
  }

  /** Every run is finite, with a bound linear in the number of rows. */
  lemma {:induction false} RunBound(s: State, steps: seq<Step>)
    requires Inv(s) && Runs(s, steps)
    ensures |steps| <= Rank(s)
    decreases |steps|
  {
    if steps == [] {
    } else {
      StepInv(s, steps[0]);
      StepRank(s, steps[0]);
      RunBound(Apply(s, steps[0]), steps[1..]);
    }
  }

  /** No run goes on for ever, and one that cannot be continued has finished: no goroutine leaks. */
  lemma Termination(source: Source, present: bool, steps: seq<Step>)
    requires Starts(source, present) && Runs(Init(source, present), steps)
    ensures |steps| <= 10 * |source.rows| + 8
    ensures var s := After(Init(source, present), steps);
            (forall step :: Enabled(s, step) ==> step.Cancel? || step.Stop?) ==>
              s.consumer.Finished? && s.producer.Closed? && s.channel == []
  {
    InitInv(source, present);
    RunBound(Init(source, present), steps);
    RunInv(Init(source, present), steps);
    var s := After(Init(source, present), steps);
    if !s.consumer.Finished? {
      var step := NeverStuck(s);
    }
  }

  // ------------------------------------------------------------- completion

  lemma StepKeepsFlags(s: State, step: Step)
    requires Enabled(s, step) && !step.Cancel? && !step.Stop?
    ensures Apply(s, step).cancelled == s.cancelled && Apply(s, step).stopped == s.stopped
  {
  }

  /** From every state the fetch can be followed to its end without anyone cancelling or stopping it. */
  lemma {:induction false} CanFinish(s: State) returns (steps: seq<Step>)
    requires Inv(s)
    ensures Runs(s, steps) && Cancel !in steps && Stop !in steps
    ensures After(s, steps).consumer.Finished?
    ensures After(s, steps).cancelled == s.cancelled && After(s, steps).stopped == s.stopped
    decreases Rank(s)
  {
    if s.consumer.Finished? {
      steps := [];
    } else {
      var step := NeverStuck(s);
      StepInv(s, step);
      StepRank(s, step);
      StepKeepsFlags(s, step);
      var rest := CanFinish(Apply(s, step));
      steps := [step] + rest;
      assert steps[1..] == rest;
    }
  }

  /**
   Every fetch has an undisturbed run to its end that delivers exactly the deliverable rows:
   all of them if none is bad and the query does not fail.
   */
  lemma FetchDelivers(source: Source, present: bool) returns (steps: seq<Step>)
    requires Starts(source, present)
    ensures Runs(Init(source, present), steps) && Cancel !in steps && Stop !in steps
    ensures var s := After(Init(source, present), steps);
            && s.consumer.Finished?
            && FirstRows(s.received, source.rows)
            && |s.received| == Deliverable(source)
            && (s.failed <==> FirstBad(source.rows) < |source.rows| || source.tailErr)
  {
    InitInv(source, present);
    steps := CanFinish(Init(source, present));
    Delivery(source, present, steps);
  }

  /** With a good row and then a bad one, the good row is never delivered. */
  lemma GoodRowLost(doc: Fields, steps: seq<Step>)
    requires Runs(Init(Source([Good(doc), Bad], false), true), steps)
    requires var s := After(Init(Source([Good(doc), Bad], false), true), steps);
             s.consumer.Finished? && !s.cancelled && !s.stopped
    ensures var s := After(Init(Source([Good(doc), Bad], false), true), steps);
            s.received == [] && s.failed
  {
    var source := Source([Good(doc), Bad], false);
    Delivery(source, true, steps);
    assert source.rows[1..] == [Bad];
    assert FirstBad(source.rows) == 1;
  }
}
