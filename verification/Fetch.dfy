/**
 The fetch protocol: a goroutine sends the rows of a query in batches over a bounded channel,
 a handler receives them and drains the channel before it returns, and the context may be
 cancelled at any moment. Every interleaving is a sequence of the steps below.
 */
module Fetch {
  import opened Values

  const CHANNEL_SIZE := 3
  const SLICE_CAPACITY := 2

  /** A row either decodes to a document, or fails to scan or unmarshal. */
  datatype Row = Good(doc: Fields) | Bad

  /** What the query yields: its rows, and whether `rows.Err` is set after the last one. */
  datatype Source = Source(rows: seq<Row>, tailErr: bool)

  /** `FetchedDocs`: a batch, or the error that ends the fetch. */
  datatype Message = Batch(docs: seq<Fields>) | Error

  datatype Producer =
    | AtLoop                                          // testing ctx.Err()
    | Filling(res: seq<Fields>)                       // the inner loop over rows.Next()
    | Sending(res: seq<Fields>, allFetched: bool)     // in writeFetched with a batch
    | AtEnd                                           // all rows fetched: checking rows.Err()
    | SendingError                                    // in writeFetched with an error
    | Closed                                          // returned; the channel is closed

  datatype Consumer = Receiving | Draining | Finished

  datatype State = State(
    source: Source,
    next: nat,                // rows read so far
    cancelled: bool,
    interrupted: bool,        // rows.Next() was cut short by the cancellation
    producer: Producer,
    channel: seq<Message>,
    consumer: Consumer,
    stopped: bool,            // the handler returned early, on an error of its own
    received: seq<Fields>,    // documents the handler was given
    failed: bool,             // the handler was given an error message
    sent: seq<Message>,       // every message ever sent
    taken: nat,               // how many of them left the channel
    kept: nat)                // how many of them the handler looked at

  datatype Step = Check | Next | Interrupt | Send | GiveUp | End | Take | Stop | Drain | Finish | Cancel

  /** `QueryDocuments` starts the goroutine, unless the collection does not exist. */
  function Init(source: Source, present: bool): State
  {
    State(source, 0, false, false, if present then AtLoop else Closed, [], Receiving, false, [], false, [], 0, 0)
  }

  predicate Enabled(s: State, step: Step)
  {
    match step
    case Check => s.producer.AtLoop?
    case Next => s.producer.Filling?
    case Interrupt => s.producer.Filling? && |s.producer.res| < SLICE_CAPACITY && s.cancelled
    case Send => (s.producer.Sending? || s.producer.SendingError?) && |s.channel| < CHANNEL_SIZE
    case GiveUp => (s.producer.Sending? || s.producer.SendingError?) && s.cancelled
    case End => s.producer.AtEnd?
    case Take => s.consumer.Receiving? && s.channel != []
    case Stop => s.consumer.Receiving?
    case Drain => s.consumer.Draining? && s.channel != []
    case Finish => !s.consumer.Finished? && s.channel == [] && s.producer.Closed?
    case Cancel => !s.cancelled
  }

  function RowsExhausted(s: State): State
    requires s.producer.Filling?
  {
    s.(producer := if s.producer.res != [] then Sending(s.producer.res, true) else AtEnd)
  }

  function ReadRow(s: State): State
    requires s.producer.Filling?
  {
    var res := s.producer.res;
    if |res| >= SLICE_CAPACITY then s.(producer := Sending(res, false))
    else if s.next >= |s.source.rows| then RowsExhausted(s)
    else match s.source.rows[s.next]
      case Good(doc) => s.(producer := Filling(res + [doc]), next := s.next + 1)
      case Bad => s.(producer := SendingError, next := s.next + 1)
  }

  function Push(s: State): State
    requires s.producer.Sending? || s.producer.SendingError?
  {
    var m := if s.producer.Sending? then Batch(s.producer.res) else Error;
    var p := if s.producer.SendingError? then Closed else if s.producer.allFetched then AtEnd else AtLoop;
    s.(channel := s.channel + [m], sent := s.sent + [m], producer := p)
  }

  function TakeMessage(s: State): State
    requires s.channel != []
  {
    var t := s.(channel := s.channel[1..], taken := s.taken + 1);
    if !s.consumer.Receiving? then t
    else match s.channel[0]
      case Batch(docs) => t.(received := s.received + docs, kept := s.kept + 1)
      case Error => t.(consumer := Draining, failed := true, kept := s.kept + 1)
  }

  function Apply(s: State, step: Step): State
    requires Enabled(s, step)
  {
    match step
    case Check => s.(producer := if s.cancelled then Closed else Filling([]))
    case Next => ReadRow(s)
    case Interrupt => RowsExhausted(s).(interrupted := true)
    case Send => Push(s)
    case GiveUp => s.(producer := Closed)
    case End => s.(producer := if s.source.tailErr || s.interrupted then SendingError else Closed)
    case Take => TakeMessage(s)
    case Stop => s.(consumer := Draining, stopped := true)
    case Drain => TakeMessage(s)
    case Finish => s.(consumer := Finished)
    case Cancel => s.(cancelled := true)
  }

  /** Whether the steps can be taken one after the other. */
  predicate Runs(s: State, steps: seq<Step>)
    decreases |steps|
  {
    steps == [] || (Enabled(s, steps[0]) && Runs(Apply(s, steps[0]), steps[1..]))
  }

  function After(s: State, steps: seq<Step>): State
    requires Runs(s, steps)
    decreases |steps|
  {
    if steps == [] then s else After(Apply(s, steps[0]), steps[1..])
  }

  // ------------------------------------------------------------- the invariant

  function DocsOf(ms: seq<Message>): seq<Fields>
  {
    if ms == [] then []
    else
      var m := ms[|ms| - 1];
      DocsOf(ms[..|ms| - 1]) + if m.Batch? then m.docs else []
  }

  function Pending(p: Producer): seq<Fields>
  {
    if p.Filling? || p.Sending? then p.res else []
  }

  /** The documents sent, or about to be. */
  function Produced(s: State): seq<Fields>
  {
    DocsOf(s.sent) + Pending(s.producer)
  }

  /** `docs` are the first rows, in order and without a gap. */
  predicate FirstRows(docs: seq<Fields>, rows: seq<Row>)
  {
    |docs| <= |rows| && forall i :: 0 <= i < |docs| ==> rows[i] == Good(docs[i])
  }

  predicate Batches(s: State)
  {
    && (forall i :: 0 <= i < |s.sent| ==> s.sent[i].Batch? ==> 1 <= |s.sent[i].docs| <= SLICE_CAPACITY)
    && (s.producer.Filling? ==> |s.producer.res| <= SLICE_CAPACITY)
    && (s.producer.Sending? ==> 1 <= |s.producer.res| <= SLICE_CAPACITY)
    && (s.producer.Sending? && !s.producer.allFetched ==> |s.producer.res| == SLICE_CAPACITY)
    && (s.producer.AtLoop? || s.producer.Filling? || s.producer.Sending? ==> |DocsOf(s.sent)| % SLICE_CAPACITY == 0)
  }

  /** An error is sent only as the last message before the channel is closed. */
  predicate ErrorLast(s: State)
  {
    forall i :: 0 <= i < |s.sent| ==> s.sent[i].Error? ==> i == |s.sent| - 1 && s.producer.Closed?
  }

  predicate ChannelInv(s: State)
  {
    && s.kept <= s.taken <= |s.sent|
    && s.channel == s.sent[s.taken..]
    && |s.channel| <= CHANNEL_SIZE
    && s.received == DocsOf(s.sent[..s.kept])
    && (s.consumer.Receiving? ==> s.kept == s.taken && !s.failed)
    && (s.failed ==> s.kept > 0 && s.sent[s.kept - 1].Error?)
    && (!s.failed ==> forall i :: 0 <= i < s.kept ==> s.sent[i].Batch?)
    && (s.consumer.Draining? ==> s.failed || s.stopped)
    && (s.consumer.Finished? ==>
          s.producer.Closed? && s.taken == |s.sent| && (s.failed || s.stopped || s.kept == s.taken))
  }

  predicate ProducerInv(s: State)
  {
    var n := |Produced(s)|;
    && FirstRows(Produced(s), s.source.rows)
    && (s.interrupted ==> s.cancelled)
    && (s.producer.AtLoop? || s.producer.Filling? || s.producer.Sending? || s.producer.AtEnd? ==> s.next == n)
    && (s.producer.SendingError? ==> n <= s.next)
    && s.next <= |s.source.rows|
    && (!s.cancelled ==> Progress(s))
  }

  /** Why an uncancelled producer stops reading rows. */
  predicate Progress(s: State)
  {
    var n := |Produced(s)|;
    match s.producer
    case AtEnd => n == |s.source.rows|
    case Sending(_, allFetched) => allFetched ==> n == |s.source.rows|
    case SendingError => MustFail(s.source, n)
    case Closed => if s.sent != [] && s.sent[|s.sent| - 1].Error? then MustFail(s.source, n)
                   else n == |s.source.rows| && !s.source.tailErr
    case _ => true
  }

  /**
   A fetch that fails has sent whole batches up to the one with the bad row, whose other row
   is lost; or it has sent every row and `rows.Err` was set.
   */
  predicate MustFail(source: Source, n: nat)
  {
    if n == |source.rows| then source.tailErr
    else
      && n % SLICE_CAPACITY == 0
      && n < |source.rows|
      && (source.rows[n].Bad? || (n + 1 < |source.rows| && source.rows[n].Good? && source.rows[n + 1].Bad?))
  }

  predicate Inv(s: State)
  {
    Batches(s) && ErrorLast(s) && ChannelInv(s) && ProducerInv(s)
  }

  /** A collection that does not exist has no rows. */
  predicate Starts(source: Source, present: bool)
  {
    present || source == Source([], false)
  }

  lemma InitInv(source: Source, present: bool)
    requires Starts(source, present)
    ensures Inv(Init(source, present))
  {
  }
}
