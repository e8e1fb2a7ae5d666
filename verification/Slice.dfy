/** The `$slice` projection on 64-bit integers, which wrap around. */
module Slice {
  import opened Bytes
  import opened Wrappers

  const MIN_INT: int := -0x8000_0000_0000_0000
  const MAX_INT: int := 0x7FFF_FFFF_FFFF_FFFF

  // ----------------------------------------------------------- specification

  function Max(a: int, b: int): int
  {
    if a < b then b else a
  }

  function Min(a: int, b: int): int
  {
    if a < b then a else b
  }

  /** The first `n` elements, or the last `-n`. */
  function Ends<T>(arr: seq<T>, n: int): seq<T>
  {
    if n >= 0 then arr[..Min(n, |arr|)] else arr[Max(0, |arr| + n)..]
  }

  lemma EndsWhole<T>(arr: seq<T>, n: int)
    requires n >= |arr| || -n >= |arr|
    ensures Ends(arr, n) == arr
  {
    assert arr[..|arr|] == arr == arr[0..];
  }

  /** Where a window starts: from the front, or from the back if negative. */
  function Start(len: nat, skip: int): (s: nat)
    ensures skip < 0 ==> s <= len
  {
    if skip >= 0 then skip else Max(0, len + skip)
  }

  /** `limit` elements after `skip`. */
  function Window<T>(arr: seq<T>, skip: int, limit: nat): seq<T>
  {
    var start := Min(Start(|arr|, skip), |arr|);
    arr[start..Min(start + limit, |arr|)]
  }

  /** The one-argument form is a window, for every argument. */
  lemma EndsAreWindows<T>(arr: seq<T>, n: int)
    ensures n >= 0 ==> Ends(arr, n) == Window(arr, 0, n)
    ensures n < 0 ==> Ends(arr, n) == Window(arr, n, -n)
  {
  }

  // ------------------------------------------------------------------ loops

  /** `a + b` on 64-bit integers. */
  method Add(a: int64, b: int64) returns (c: int64)
    ensures MIN_INT <= a + b <= MAX_INT ==> c == a + b
    ensures a + b > MAX_INT ==> c == a + b - 0x1_0000_0000_0000_0000
    ensures a + b < MIN_INT ==> c == a + b + 0x1_0000_0000_0000_0000
  {
    c := ToInt64(a + b);
  }

  /** `-a` on 64-bit integers. */
  method Neg(a: int64) returns (c: int64)
    ensures c == if a == MIN_INT then a else -a
  {
    var n: int := a;
    c := ToInt64(-n);
  }

  /** `arr.Get` from `from` to `to`: an index outside the array is a panic. */
  method Copy<T>(arr: seq<T>, from: int, to: int) returns (r: Option<seq<T>>)
    requires to <= |arr|
    ensures r == if from >= to then Some([]) else if from < 0 then None else Some(arr[from..to])
  {
    var res: seq<T> := [];
    var i := from;
    while i < to
      invariant i == from || 0 <= from < i <= to
      invariant res == if i == from then [] else arr[from..i]
    {
      if i < 0 {
        return None;
      }
      res := res + [arr[i]];
      i := i + 1;
    }
    return Some(res);
  }

  /** `projectionSliceSingleArg`: `None` is a panic, and only the least integer causes it. */
  method SingleArg<T>(arr: seq<T>, arg: int64) returns (r: Option<seq<T>>)
    requires |arr| <= MAX_INT
    ensures r == if arg == MIN_INT then None else Some(Ends(arr, arg))
  {
    var n := arg;
    var skip, limit := 0, arg;
    if n < 0 {
      skip := Add(|arr|, n);
      limit := |arr|;
      n := Neg(n);
    }
    if n < |arr| {
      r := Copy(arr, skip, limit);
      assert arg < 0 && skip >= 0 ==> arr[skip..|arr|] == arr[skip..];
    } else {
      EndsWhole(arr, arg);
      r := Some(arr);
    }
  }

  /** `make` with a negative capacity is a panic. */
  predicate Allocates(capacity: int)
  {
    capacity >= 0
  }

  /**
   `projectionSliceMultiArgs` after its arguments are read: `None` is a panic, which happens
   exactly when negating `skip` or adding it to `limit` overflows.
   */
  method MultiArgs<T>(arr: seq<T>, skipArg: int64, limitArg: int64) returns (r: Option<seq<T>>)
    requires |arr| <= MAX_INT && limitArg >= 0
    ensures r.Some? <==> skipArg != MIN_INT && (skipArg > |arr| || limitArg + Start(|arr|, skipArg) <= MAX_INT)
    ensures r.Some? ==> r.value == Window(arr, skipArg, limitArg)
  {
    var skip, limit := skipArg, limitArg;
    if skip < 0 {
      var back := Neg(skip);
      if back >= |arr| {
        skip := 0;
      } else {
        skip := Add(|arr|, skip);
      }
    } else if skip > |arr| {
      return Some([]);
    }
    limit := Add(limit, skip);
    if limit >= |arr| {
      limit := |arr|;
    }
    if !Allocates(limit) {
      return None;
    }
    r := Copy(arr, skip, limit);
  }
}
