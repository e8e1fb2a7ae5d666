/** The circular buffer of recent log entries. */
module RingBuffer {
  import opened Wrappers

  /** A log entry; of its contents only the level matters here. */
  datatype Entry = Entry(level: int, text: seq<char>)

  // ----------------------------------------------------------- specification

  /** The last `n` entries, or all of them if there are fewer. */
  function LastN(entries: seq<Entry>, n: nat): seq<Entry>
  {
    if |entries| <= n then entries else entries[|entries| - n..]
  }

  /** The entries at or above a level, in order. */
  function AtLeast(entries: seq<Entry>, minLevel: int): seq<Entry>
  {
    if entries == [] then []
    else (if entries[0].level >= minLevel then [entries[0]] else []) + AtLeast(entries[1..], minLevel)
  }

  lemma {:induction false} AtLeastAppend(entries: seq<Entry>, e: Entry, minLevel: int)
    ensures AtLeast(entries + [e], minLevel)
         == AtLeast(entries, minLevel) + (if e.level >= minLevel then [e] else [])
  {
    if entries == [] {
      assert entries + [e] == [e];
    } else {
      assert (entries + [e])[0] == entries[0] && (entries + [e])[1..] == entries[1..] + [e];
      AtLeastAppend(entries[1..], e, minLevel);
    }
  }

  /** What slot `i`, counted from the oldest, holds after `history` was appended to `n` slots. */
  ghost function Slot(history: seq<Entry>, n: nat, i: nat): Option<Entry>
    requires i < n
  {
    if i < n - |history| then None else Some(history[|history| - n + i])
  }

  lemma AtLeastTwice(q: nat, n: nat)
    requires q >= 2
    ensures q * n >= 2 * n
  {
    assert q * n == (q - 2) * n + 2 * n;
  }

  lemma Around(x: nat, n: nat)
    requires x < 2 * n
    ensures x % n == if x < n then x else x - n
  {
    var q := x / n;
    assert x == q * n + x % n;
    if q >= 2 {
      AtLeastTwice(q, n);
    }
    if q <= 0 {
      assert q == 0;
    }
  }

  // ------------------------------------------------------------------ buffer

  class CircularBuffer {
    const log: array<Option<Entry>>
    var index: nat
    ghost var history: seq<Entry>

    ghost predicate Valid()
      reads this, log
    {
      && index < log.Length
      && forall i :: 0 <= i < log.Length ==> log[At(i)] == Slot(history, log.Length, i)
    }

    /** The slot of the `i`-th oldest entry. */
    ghost function At(i: nat): (k: nat)
      requires i < log.Length && index < log.Length
      reads this
      ensures k < log.Length
    {
      if index + i < log.Length then index + i else index + i - log.Length
    }

    constructor (size: nat)
      requires size >= 1
      ensures Valid() && history == [] && log.Length == size && fresh(log)
    {
      log := new Option<Entry>[size](_ => None);
      index := 0;
      history := [];
    }

    method Append(entry: Entry)
      requires Valid()
      modifies this, log
      ensures Valid() && history == old(history) + [entry]
    {
      ghost var n := log.Length;
      log[index] := Some(entry);
      Around(index + 1, n);
      index := (index + 1) % log.Length;
      history := history + [entry];
      forall i | 0 <= i < n
        ensures log[At(i)] == Slot(history, n, i)
      {
        if i < n - 1 {
          assert At(i) == old(At(i + 1)) != old(index);
          assert old(log[At(i + 1)]) == Slot(old(history), n, i + 1);
        }
      }
    }

    /** The last entries at or above a level, oldest first. */
    method Get(minLevel: int) returns (entries: seq<Entry>)
      requires Valid()
      ensures entries == AtLeast(LastN(history, log.Length), minLevel)
    {
      entries := [];
      ghost var last := LastN(history, log.Length);
      ghost var seen: nat := 0;
      for i := 0 to log.Length
        invariant seen == if i < log.Length - |history| then 0 else i - (log.Length - |last|)
        invariant seen <= |last| && entries == AtLeast(last[..seen], minLevel)
      {
        Around(i + index, log.Length);
        var k := (i + index) % log.Length;
        assert log[k] == Slot(history, log.Length, i);
        if log[k].Some? {
          assert log[k].value == last[seen] && last[..seen + 1] == last[..seen] + [last[seen]];
          AtLeastAppend(last[..seen], last[seen], minLevel);
          seen := seen + 1;
          if log[k].value.level >= minLevel {
            entries := entries + [log[k].value];
          }
        }
      }
      assert last[..seen] == last;
    }
  }
}
