/** What a cancelled context does to a fetch: little more is read, and an interrupted query is reported. */
module FetchCancellation {
  import opened Values
  import opened Fetch

  // ------------------------------------------------------------------- reading

  /** How many more rows the goroutine reads once the context is cancelled: what is missing in its batch. */
  function Allowance(p: Producer): nat
  {
    if p.Filling? && |p.res| < 2 then 2 - |p.res| else 0
  }

  lemma CancelledStep(s: State, step: Step)
    requires s.cancelled && Enabled(s, step)
    ensures var t := Apply(s, step);
            t.cancelled && t.next + Allowance(t.producer) <= s.next + Allowance(s.producer)
  {
  }

  lemma {:induction false} CancelledRun(s: State, steps: seq<Step>)
    requires s.cancelled && Runs(s, steps)
    ensures After(s, steps).next + Allowance(After(s, steps).producer) <= s.next + Allowance(s.producer)
    decreases |steps|
  {
    if steps == [] {
    } else {
      CancelledStep(s, steps[0]);
      CancelledRun(Apply(s, steps[0]), steps[1..]);
    }
  }

  /** From the moment the context is cancelled at most two more rows are read, whatever happens. */
  lemma CancelStops(s: State, steps: seq<Step>)
    requires s.cancelled && Runs(s, steps)
    ensures After(s, steps).next <= s.next + 2
  {
    CancelledRun(s, steps);
  }

  // -------------------------------------------------------------- interruption

  predicate EndsWithError(s: State)
  {
    s.sent != [] && s.sent[|s.sent| - 1].Error?
  }

  /** After an interruption the goroutine is on its way to send an error, or has sent it. */
  predicate Reporting(s: State)
  {
    s.interrupted ==>
      match s.producer
      case Sending(_, allFetched) => allFetched
      case AtEnd => true
      case SendingError => true
      case Closed => EndsWithError(s)
      case _ => false
  }

  lemma ReportingStep(s: State, step: Step)
    requires Reporting(s) && Enabled(s, step) && step != GiveUp
    ensures Reporting(Apply(s, step))
  {
  }

  lemma {:induction false} ReportingRun(s: State, steps: seq<Step>)
    requires Reporting(s) && Runs(s, steps) && GiveUp !in steps
    ensures Reporting(After(s, steps))
    decreases |steps|
  {
    if steps == [] {
    } else {
      assert steps[0] in steps;
      ReportingStep(s, steps[0]);
      ReportingRun(Apply(s, steps[0]), steps[1..]);
    }
  }

  /** If the query is cut short and the goroutine does not give up sending, its last message is an error. */
  lemma InterruptionIsReported(source: Source, present: bool, steps: seq<Step>)
    requires Runs(Init(source, present), steps) && GiveUp !in steps
    ensures var s := After(Init(source, present), steps);
            s.interrupted && s.producer.Closed? ==> s.sent != [] && s.sent[|s.sent| - 1].Error?
  {
    ReportingRun(Init(source, present), steps);
  }
}
