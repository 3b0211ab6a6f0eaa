/**
  The parts of Python's list behaviour that the deck delegates to: indexing with
  negative positions, slicing with clamped bounds, `list.index`, the membership
  scan, and the iteration that Python derives from `__len__` and `__getitem__`
  alone (forward iteration and `reversed()`).
*/
module PyList {
  import opened Wrappers

  // ---------------------------------------------------------------------------
  // Indexing: s[i]
  // ---------------------------------------------------------------------------

  /** `s[i]` for an integer `i`: negative positions count from the end. */
  function At<T>(s: seq<T>, i: int): (r: Result<T>)
    ensures r.Ok? <==> -|s| <= i < |s|
    ensures r.Ok? && 0 <= i ==> r.value == s[i]
    ensures r.Ok? && i < 0 ==> r.value == s[|s| + i]
    ensures r.Err? ==> r.error == IndexError
  {
    var j := if i < 0 then i + |s| else i;
    if 0 <= j < |s| then Ok(s[j]) else Err(IndexError)
  }

  /** A negative position names the same element as the position `|s|` further on. */
  lemma AtNegative<T>(s: seq<T>, i: int)
    requires -|s| <= i < 0
    ensures At(s, i).Ok? && At(s, i) == At(s, |s| + i)
  {
  }

  /** The first position past either end raises IndexError. */
  lemma AtOutOfRange<T>(s: seq<T>)
    ensures At(s, |s|) == Err(IndexError)
    ensures At(s, -|s| - 1) == Err(IndexError)
  {
  }

  // ---------------------------------------------------------------------------
  // Slicing: s[start:stop:step]
  // ---------------------------------------------------------------------------

  /** The positions a slice visits: `count` positions from `start` in steps of `step`. */
  datatype Span = Span(start: int, stop: int, step: int, count: nat)

  /** The k-th position visited by a span. */
  function Pick(b: Span, k: int): int
  {
    b.start + k * b.step
  }

  /** One given slice bound, clamped to the list the way CPython adjusts slice indices. */
  function ClampBound(bound: int, len: nat, step: int): (c: int)
    ensures step > 0 ==> 0 <= c <= len
    ensures step < 0 ==> -1 <= c <= len - 1
    ensures 0 <= bound < len ==> c == bound
    ensures bound < 0 && 0 <= bound + len ==> c == bound + len
    ensures bound + len < 0 ==> c == if step < 0 then -1 else 0
    ensures len <= bound ==> c == if step < 0 then len - 1 else len
  {
    if bound < 0 then
      if bound + len < 0 then (if step < 0 then -1 else 0) else bound + len
    else if bound >= len then
      if step < 0 then len - 1 else len
    else
      bound
  }

  /**
    Resolves `start:stop:step` against a list of length `len`: a missing bound
    starts at the end the step walks away from, or stops past the end it walks
    towards; a given bound is clamped; the count is how many positions of the
    progression lie strictly before `stop`.
  */
  function Resolve(len: nat, start: Option<int>, stop: Option<int>, step: int): (b: Span)
    requires step != 0
    ensures b.step == step
    ensures b.count <= len
    ensures forall k :: 0 <= k < b.count ==> 0 <= Pick(b, k) < len
  {
    var lo := match start
      case None => if step < 0 then len - 1 else 0
      case Some(a) => ClampBound(a, len, step);
    var hi := match stop
      case None => if step < 0 then -1 else len
      case Some(z) => ClampBound(z, len, step);
    var b := Span(lo, hi, step, Count(lo, hi, step));
    PicksInRange(len, b);
    b
  }

  /**
    What a resolved span is: it starts at the given start (clamped) or, when
    none is given, at the end the step walks away from; it stops at the given
    stop (clamped) or just past the end the step walks towards; and it visits
    exactly the positions of the progression that come strictly before `stop`.
  */
  lemma ResolveSpan(len: nat, start: Option<int>, stop: Option<int>, step: int)
    requires step != 0
    ensures var b := Resolve(len, start, stop, step);
      && b.start == (match start
        case None => if step < 0 then len - 1 else 0
        case Some(a) => ClampBound(a, len, step))
      && b.stop == (match stop
        case None => if step < 0 then -1 else len
        case Some(z) => ClampBound(z, len, step))
      && forall k :: 0 <= k ==>
        (k < b.count <==> if step > 0 then Pick(b, k) < b.stop else Pick(b, k) > b.stop)
  {
    CountBeforeStop(Resolve(len, start, stop, step));
  }

  /** How many positions from `lo` in steps of `step` lie strictly before `hi`, as CPython counts them. */
  function Count(lo: int, hi: int, step: int): nat
    requires step != 0
  {
    if step > 0 then
      (if lo < hi then (hi - lo - 1) / step + 1 else 0)
    else
      (if hi < lo then (lo - hi - 1) / (-step) + 1 else 0)
  }

  /** How many steps of size `step` fit strictly inside a gap of `gap + 1`. */
  lemma StepsFit(gap: nat, step: nat, k: nat)
    requires step > 0 && k <= gap / step
    ensures k * step <= gap
  {
    var q := gap / step;
    assert q * step <= gap;
    assert k * step <= q * step;
  }

  /** Exactly the first `gap / step + 1` multiples of `step` are at most `gap`. */
  lemma StepsWithin(gap: nat, step: nat, k: nat)
    requires step > 0
    ensures k <= gap / step <==> k * step <= gap
  {
    var q := gap / step;
    if k <= q {
      StepsFit(gap, step, k);
    } else {
      assert gap < q * step + step;
      MulMonotone(q + 1, k, step);
      assert (q + 1) * step == q * step + step;
    }
  }

  lemma {:induction false} MulMonotone(a: nat, b: nat, m: nat)
    requires a <= b
    ensures a * m <= b * m
  {
    if a < b {
      MulMonotone(a, b - 1, m);
      assert b * m == (b - 1) * m + m;
    }
  }

  /**
    The count of a span is the number of positions of its progression that
    come strictly before `stop` in the direction of the step.
  */
  lemma CountBeforeStop(b: Span)
    requires b.step != 0 && b.count == Count(b.start, b.stop, b.step)
    ensures forall k :: 0 <= k ==>
      (k < b.count <==> if b.step > 0 then Pick(b, k) < b.stop else Pick(b, k) > b.stop)
  {
    forall k | 0 <= k
      ensures k < b.count <==> if b.step > 0 then Pick(b, k) < b.stop else Pick(b, k) > b.stop
    {
      if b.step > 0 {
        CountUpAt(b.start, b.stop, b.step, k);
      } else {
        CountDownAt(b.start, b.stop, -b.step, k);
        assert Pick(b, k) == b.start - k * (-b.step);
      }
    }
  }

  /** With a positive step, the k-th position comes before `hi` exactly when k is below the count. */
  lemma CountUpAt(lo: int, hi: int, step: int, k: nat)
    requires step > 0
    ensures k < Count(lo, hi, step) <==> lo + k * step < hi
  {
    MulMonotone(0, k, step);
    if lo < hi {
      StepsWithin(hi - lo - 1, step, k);
    }
  }

  /** With a negative step -down, the k-th position comes after `hi` exactly when k is below the count. */
  lemma CountDownAt(lo: int, hi: int, down: int, k: nat)
    requires down > 0
    ensures k < Count(lo, hi, -down) <==> lo - k * down > hi
  {
    MulMonotone(0, k, down);
    if hi < lo {
      StepsWithin(lo - hi - 1, down, k);
    }
  }


  /** The count is at most the width of the clamped range. */
  lemma CountWithinGap(gap: nat, step: nat)
    requires step > 0
    ensures gap / step + 1 <= gap + 1
  {
    var q := gap / step;
    assert q * step <= gap;
    MulAtLeast(q, step);
  }

  lemma {:induction false} MulAtLeast(q: nat, step: nat)
    requires step >= 1
    ensures q <= q * step
  {
    if step > 1 {
      MulAtLeast(q, step - 1);
      assert q * step == q * (step - 1) + q;
    }
  }

  /** Every position of a resolved span lies inside the list. */
  lemma PicksInRange(len: nat, b: Span)
    requires b.step > 0 ==> 0 <= b.start <= len && 0 <= b.stop <= len
    requires b.step < 0 ==> -1 <= b.start <= len - 1 && -1 <= b.stop <= len - 1
    requires b.step != 0 && b.count == Count(b.start, b.stop, b.step)
    ensures b.count <= len
    ensures forall k :: 0 <= k < b.count ==> 0 <= Pick(b, k) < len
  {
    if b.step > 0 {
      if b.start < b.stop {
        CountWithinGap(b.stop - b.start - 1, b.step);
        forall k | 0 <= k < b.count ensures 0 <= Pick(b, k) < len {
          StepsFit(b.stop - b.start - 1, b.step, k);
        }
      }
    } else {
      if b.stop < b.start {
        CountWithinGap(b.start - b.stop - 1, -b.step);
        forall k | 0 <= k < b.count ensures 0 <= Pick(b, k) < len {
          StepsFit(b.start - b.stop - 1, -b.step, k);
          assert Pick(b, k) == b.start - k * (-b.step);
        }
      }
    }
  }

  /**
    `s[start:stop:step]`, each part optional: a zero step raises ValueError;
    otherwise the result is a new list of the elements at the resolved
    positions, and no bound, however far out, makes it fail.
  */
  function Slice<T>(s: seq<T>, start: Option<int>, stop: Option<int>, step: Option<int>): (r: Result<seq<T>>)
    ensures r.Err? <==> step == Some(0)
    ensures r.Err? ==> r.error == ValueError
    ensures r.Ok? ==> |r.value| <= |s|
    ensures r.Ok? ==> var b := Resolve(|s|, start, stop, if step.Some? then step.value else 1);
      |r.value| == b.count && forall k :: 0 <= k < b.count ==> r.value[k] == s[Pick(b, k)]
  {
    if step == Some(0) then Err(ValueError)
    else
      var b := Resolve(|s|, start, stop, if step.Some? then step.value else 1);
      Ok(seq(b.count, k requires 0 <= k < b.count => s[Pick(b, k)]))
  }

  /** A step-1 bound: negative bounds count from the end, then clamp to [0, len]. */
  function Bound(x: Option<int>, len: nat, missing: nat): (c: nat)
    requires missing <= len
    ensures c <= len
  {
    match x
    case None => missing
    case Some(i) => if i < 0 then (if i + len < 0 then 0 else i + len) else (if i > len then len else i)
  }

  /** With the default step a slice is the contiguous run between the two clamped bounds. */
  lemma SliceContiguous<T>(s: seq<T>, start: Option<int>, stop: Option<int>)
    ensures var lo, hi := Bound(start, |s|, 0), Bound(stop, |s|, |s|);
      Slice(s, start, stop, None) == Ok(if lo <= hi then s[lo..hi] else [])
  {
    var lo, hi := Bound(start, |s|, 0), Bound(stop, |s|, |s|);
    var r := Slice(s, start, stop, None);
    var b := Resolve(|s|, start, stop, 1);
    assert b.start == lo && b.stop == hi;
    if lo <= hi {
      assert r.value == s[lo..hi];
    } else {
      assert r.value == [];
    }
  }

  /** `s[::-1]` is the reverse of `s`. */
  lemma SliceReverse<T>(s: seq<T>)
    ensures Slice(s, None, None, Some(-1)) == Ok(Reverse(s))
  {
    var r := Slice(s, None, None, Some(-1));
    var b := Resolve(|s|, None, None, -1);
    if |s| > 0 {
      assert b.count == |s|;
    }
    assert r.value == Reverse(s);
  }

  // ---------------------------------------------------------------------------
  // list.index and the membership scan
  // ---------------------------------------------------------------------------

  /** `list.index(x)` from position `i` on. */
  function IndexFrom<T(==)>(s: seq<T>, x: T, i: nat): (r: Result<nat>)
    requires i <= |s|
    ensures r.Ok? <==> exists j :: i <= j < |s| && s[j] == x
    ensures r.Ok? ==> i <= r.value < |s| && s[r.value] == x && forall j :: i <= j < r.value ==> s[j] != x
    ensures r.Err? ==> r.error == ValueError
    decreases |s| - i
  {
    if i == |s| then Err(ValueError)
    else if s[i] == x then Ok(i)
    else IndexFrom(s, x, i + 1)
  }

  /** `list.index(x)`: the first position holding `x`, or ValueError when there is none. */
  function IndexOf<T(==)>(s: seq<T>, x: T): (r: Result<nat>)
    ensures r.Ok? <==> x in s
    ensures r.Ok? ==> r.value < |s| && s[r.value] == x && forall j :: 0 <= j < r.value ==> s[j] != x
    ensures r.Err? ==> r.error == ValueError
  {
    IndexFrom(s, x, 0)
  }

  /** No value occurs twice. */
  predicate Distinct<T(==)>(s: seq<T>)
  {
    forall i, j :: 0 <= i < j < |s| ==> s[i] != s[j]
  }

  /** Two lists without repeats and without a common element concatenate to a list without repeats. */
  lemma DistinctConcat<T>(a: seq<T>, b: seq<T>)
    requires Distinct(a) && Distinct(b)
    requires forall x :: x in a ==> x !in b
    ensures Distinct(a + b)
  {
    var ab := a + b;
    forall i, j | 0 <= i < j < |ab| ensures ab[i] != ab[j] {
      if j < |a| {
        assert ab[i] == a[i] && ab[j] == a[j];
      } else if i >= |a| {
        assert ab[i] == b[i - |a|] && ab[j] == b[j - |a|];
      } else {
        assert ab[i] == a[i] && a[i] in a && ab[j] == b[j - |a|];
      }
    }
  }

  /** In a list without repeats, `index` finds every element at its own position. */
  lemma IndexOfDistinct<T>(s: seq<T>, i: nat)
    requires Distinct(s) && i < |s|
    ensures IndexOf(s, s[i]) == Ok(i)
  {
  }

  /** The membership scan from position `i` on: compare each element in turn with `x`. */
  function ScanFrom<T(==)>(s: seq<T>, x: T, i: nat): (b: bool)
    requires i <= |s|
    ensures b <==> exists j :: i <= j < |s| && s[j] == x
    decreases |s| - i
  {
    if i == |s| then false
    else s[i] == x || ScanFrom(s, x, i + 1)
  }

  /** `x in s` for a list: true exactly when some element equals `x`. */
  function Contains<T(==)>(s: seq<T>, x: T): (b: bool)
    ensures b <==> x in s
  {
    ScanFrom(s, x, 0)
  }

  // ---------------------------------------------------------------------------
  // Permutations, as `sorted` produces them
  // ---------------------------------------------------------------------------

  /** In a list without repeats every element is counted once. */
  lemma {:induction false} DistinctCount<T>(s: seq<T>, x: T)
    requires Distinct(s)
    ensures multiset(s)[x] == if x in s then 1 else 0
  {
    if s != [] {
      var tail := s[1..];
      assert s == [s[0]] + tail;
      assert Distinct(tail) by {
        forall i, j | 0 <= i < j < |tail| ensures tail[i] != tail[j] {
          assert tail[i] == s[i + 1] && tail[j] == s[j + 1];
        }
      }
      DistinctCount(tail, x);
    }
  }

  /** Two lists without repeats that hold the same elements are permutations of each other. */
  lemma SameElementsPermutation<T>(a: seq<T>, b: seq<T>)
    requires Distinct(a) && Distinct(b)
    requires forall x :: x in a <==> x in b
    ensures multiset(a) == multiset(b)
  {
    forall x ensures multiset(a)[x] == multiset(b)[x] {
      DistinctCount(a, x);
      DistinctCount(b, x);
    }
  }

  /** An element that also occurs further on is counted at least twice. */
  lemma CountAtLeast<T>(s: seq<T>, i: nat, j: nat)
    requires i < j < |s|
    ensures multiset(s)[s[i]] >= if s[i] == s[j] then 2 else 1
  {
    var front, back := s[..j], s[j..];
    assert s == front + back;
    assert front[i] == s[i];
    assert back[0] == s[j];
  }

  /** A permutation of a list without repeats has no repeats. */
  lemma PermutationDistinct<T>(a: seq<T>, b: seq<T>)
    requires Distinct(a) && multiset(a) == multiset(b)
    ensures Distinct(b)
  {
    forall i, j | 0 <= i < j < |b| ensures b[i] != b[j] {
      CountAtLeast(b, i, j);
      DistinctCount(a, b[i]);
    }
  }

  // ---------------------------------------------------------------------------
  // Iteration derived from __len__ and __getitem__
  // ---------------------------------------------------------------------------

  /** What `for x in obj` yields from position `i` on when obj has only `__getitem__`: obj[i], obj[i+1], … until IndexError. */
  function IterFrom<T>(s: seq<T>, i: nat): seq<T>
    decreases |s| - i
  {
    match At(s, i)
    case Ok(x) => [x] + IterFrom(s, i + 1)
    case Err(_) => []
  }

  /** Forward iteration over a sequence object: its i-th item is what `s[i]` returns. */
  function Iterate<T>(s: seq<T>): (r: seq<T>)
    ensures |r| == |s|
    ensures forall i :: 0 <= i < |s| ==> At(s, i) == Ok(r[i])
  {
    IterFromIsSuffix(s, 0);
    IterFrom(s, 0)
  }

  /** What `reversed(obj)` yields from position `i` down: obj[i], obj[i-1], …, obj[0]. */
  function RevFrom<T>(s: seq<T>, i: int): seq<T>
    decreases i
  {
    if i < 0 then []
    else match At(s, i)
      case Ok(x) => [x] + RevFrom(s, i - 1)
      case Err(_) => []
  }

  /**
    `reversed(obj)` for an object with `__len__` and `__getitem__`: starts at
    position len - 1, so its i-th item is what `s[len - 1 - i]` returns.
  */
  function Reversed<T>(s: seq<T>): (r: seq<T>)
    ensures |r| == |s|
    ensures forall i :: 0 <= i < |s| ==> At(s, |s| - 1 - i) == Ok(r[i])
  {
    RevFromIsReversedPrefix(s, |s| - 1);
    assert s[..|s|] == s;
    RevFrom(s, |s| - 1)
  }

  /** The reverse of a sequence, position by position. */
  function Reverse<T>(s: seq<T>): (r: seq<T>)
    ensures |r| == |s|
  {
    seq(|s|, k requires 0 <= k < |s| => s[|s| - 1 - k])
  }

  lemma {:induction false} IterFromIsSuffix<T>(s: seq<T>, i: nat)
    requires i <= |s|
    ensures IterFrom(s, i) == s[i..]
    decreases |s| - i
  {
    if i < |s| {
      IterFromIsSuffix(s, i + 1);
    }
  }

  /** Forward iteration visits exactly s[0], s[1], …, s[len - 1]. */
  lemma IterateIsInOrder<T>(s: seq<T>)
    ensures Iterate(s) == s
    ensures forall i :: 0 <= i < |s| ==> At(s, i) == Ok(Iterate(s)[i])
  {
    IterFromIsSuffix(s, 0);
  }

  lemma {:induction false} RevFromIsReversedPrefix<T>(s: seq<T>, i: int)
    requires -1 <= i < |s|
    ensures RevFrom(s, i) == Reverse(s[..i + 1])
    decreases i
  {
    if i >= 0 {
      RevFromIsReversedPrefix(s, i - 1);
      assert s[..i + 1][..i] == s[..i];
    }
  }

  /** `reversed()` yields exactly the forward iteration, back to front. */
  lemma ReversedIsReverseOfIterate<T>(s: seq<T>)
    ensures Reversed(s) == Reverse(Iterate(s))
  {
    RevFromIsReversedPrefix(s, |s| - 1);
    assert s[..|s|] == s;
    IterateIsInOrder(s);
  }
}
