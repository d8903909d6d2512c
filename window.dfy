/**
 * The rolling error window: `deque(maxlen=WINDOW_SIZE)` of per-request error flags, and
 * the error rate computed over it once it holds enough samples.
 */
module ErrorWindows {

  /** What a `deque(maxlen=n)` retains of everything appended to it: the last `n` items. */
  function LastN<T>(s: seq<T>, n: nat): seq<T> {
    if |s| <= n then s else s[|s| - n..]
  }

  /** The window after `window.append(x)` on a deque of capacity `cap`. */
  function Appended(w: seq<bool>, x: bool, cap: nat): seq<bool> {
    LastN(w + [x], cap)
  }

  /**
   * Appending never exceeds the capacity, the newest entry is the appended outcome, and
   * the rest is the previous window, losing its oldest entry only when it was full.
   */
  lemma AppendKeepsNewest(w: seq<bool>, x: bool, cap: nat)
    requires |w| <= cap
    ensures |Appended(w, x, cap)| == if |w| < cap then |w| + 1 else cap
    ensures cap > 0 ==> Appended(w, x, cap)[|Appended(w, x, cap)| - 1] == x
    ensures |w| < cap ==> Appended(w, x, cap) == w + [x]
    ensures 0 < |w| == cap ==> Appended(w, x, cap) == w[1..] + [x]
    ensures cap == 0 ==> Appended(w, x, cap) == []
  {
  }

  /** The window after appending each of `xs`, in order, to an empty window. */
  function Fill(xs: seq<bool>, cap: nat): (w: seq<bool>)
    ensures |w| <= cap
  {
    if xs == [] then [] else Appended(Fill(xs[..|xs| - 1], cap), xs[|xs| - 1], cap)
  }

  /**
   * However many outcomes have been appended, the window holds exactly the latest `cap`
   * of them: after `cap + k` appends the oldest `k` are gone.
   */
  lemma {:induction false} FillKeepsLatest(xs: seq<bool>, cap: nat)
    ensures Fill(xs, cap) == LastN(xs, cap)
  {
    if xs != [] {
      var init, x := xs[..|xs| - 1], xs[|xs| - 1];
      FillKeepsLatest(init, cap);
      assert xs == init + [x];
      if |init| >= cap && cap > 0 {
        assert LastN(init, cap) + [x] == init[|init| - cap..] + [x];
        assert (LastN(init, cap) + [x])[1..] == xs[|xs| - cap..];
      }
    }
  }

  /** The number of error entries, `sum(1 for x in window if x)`. */
  function CountTrue(s: seq<bool>): (n: nat)
    ensures n <= |s|
  {
    if s == [] then 0 else CountTrue(s[..|s| - 1]) + (if s[|s| - 1] then 1 else 0)
  }

  /** The count is the number of occurrences of `true` in the window, whatever their order. */
  lemma {:induction false} CountTrueIsMultiplicity(s: seq<bool>)
    ensures CountTrue(s) == multiset(s)[true]
  {
    if s != [] {
      var init := s[..|s| - 1];
      CountTrueIsMultiplicity(init);
      assert s == init + [s[|s| - 1]];
      assert multiset(s) == multiset(init) + multiset{s[|s| - 1]};
    }
  }

  /** An all-error window counts every entry; an error-free one counts none. */
  lemma {:induction false} CountTrueExtremes(s: seq<bool>)
    ensures (forall i :: 0 <= i < |s| ==> s[i]) ==> CountTrue(s) == |s|
    ensures (forall i :: 0 <= i < |s| ==> !s[i]) ==> CountTrue(s) == 0
  {
    if s != [] {
      CountTrueExtremes(s[..|s| - 1]);
    }
  }

  /** `max(50, int(WINDOW_SIZE * 0.25))`: the float product is truncated, i.e. floored. */
  function MinFill(windowSize: nat): (m: nat)
    ensures m >= 50 && m >= windowSize / 4
    ensures m == 50 || m == windowSize / 4
  {
    if windowSize / 4 > 50 then windowSize / 4 else 50
  }

  /** `errors / total * 100`, computed exactly. */
  function ErrorRatePercent(errors: nat, total: nat): (r: real)
    requires 0 < total && errors <= total
    ensures 0.0 <= r <= 100.0
    ensures errors == total ==> r == 100.0
    ensures errors == 0 ==> r == 0.0
  {
    var q := errors as real / total as real;
    assert q <= 1.0 by {
      assert errors as real <= total as real;
    }
    q * 100.0
  }

  /** `errors * 100 > threshold * total`: the rate comparison without a division. */
  predicate RateAbove(errors: nat, total: nat, threshold: real) {
    (errors * 100) as real > threshold * total as real
  }

  /** Comparing the rate with the threshold is comparing `errors * 100` with `threshold * total`. */
  lemma RateAboveIff(errors: nat, total: nat, threshold: real)
    requires 0 < total && errors <= total
    ensures ErrorRatePercent(errors, total) > threshold <==> RateAbove(errors, total, threshold)
  {
    var q := errors as real / total as real;
    assert q * total as real == errors as real;
    calc {
      ErrorRatePercent(errors, total) > threshold;
    ==  q * 100.0 > threshold;
    ==  { assert total as real > 0.0; }
        q * 100.0 * total as real > threshold * total as real;
    ==  (errors * 100) as real > threshold * total as real;
    }
  }

  /**
   * A bounded FIFO of error flags in a ring buffer: `len` entries starting at `start`,
   * wrapping around the end of `data`. `Contents` is the deque's content, oldest first.
   */
  class ErrorWindow {
    ghost var Contents: seq<bool>
    const capacity: nat
    const data: array<bool>
    var start: nat
    var len: nat

    /** The array position of the `i`-th oldest entry. */
    function Slot(i: nat): nat
      reads this
    {
      if start + i < capacity then start + i else start + i - capacity
    }

    ghost predicate Valid()
      reads this, data
    {
      data.Length == capacity && len <= capacity && |Contents| == len
      && (capacity == 0 ==> start == 0) && (capacity > 0 ==> start < capacity)
      && forall i :: 0 <= i < len ==> Slot(i) < capacity && Contents[i] == data[Slot(i)]
    }

    constructor (windowSize: nat)
      ensures Valid() && fresh(data)
      ensures capacity == windowSize && Contents == []
    {
      capacity := windowSize;
      data := new bool[windowSize];
      start, len := 0, 0;
      Contents := [];
    }

    /** `len(window)` */
    function Length(): (n: nat)
      reads this, data
      requires Valid()
      ensures n == |Contents| && n <= capacity
    {
      len
    }

    /** `window.append(x)`: writes the new flag over the oldest one when the window is full. */
    method Append(x: bool)
      requires Valid()
      modifies this, data
      ensures Valid()
      ensures Contents == Appended(old(Contents), x, capacity)
    {
      ghost var was := Contents;
      AppendKeepsNewest(was, x, capacity);
      if len < capacity {
        var p := Slot(len);
        data[p] := x;
        len := len + 1;
        Contents := was + [x];
        forall i | 0 <= i < len
          ensures Slot(i) < capacity && Contents[i] == data[Slot(i)]
        {
          if i < len - 1 {
            assert Slot(i) != p;
          }
        }
      } else if capacity > 0 {
        var p := start;
        data[p] := x;
        start := if start + 1 == capacity then 0 else start + 1;
        Contents := was[1..] + [x];
        forall i | 0 <= i < len
          ensures Slot(i) < capacity && Contents[i] == data[Slot(i)]
        {
          if i < len - 1 {
            assert Contents[i] == was[i + 1];
            assert Slot(i) != p;
          }
        }
      }
    }

    /** `sum(1 for x in window if x)`: the number of error entries in the window. */
    method CountErrors() returns (n: nat)
      requires Valid()
      ensures n == CountTrue(Contents)
    {
      n := 0;
      var i := 0;
      while i < len
        invariant i <= len
        invariant n == CountTrue(Contents[..i])
      {
        assert Contents[..i + 1][..i] == Contents[..i];
        if data[Slot(i)] {
          n := n + 1;
        }
        i := i + 1;
      }
      assert Contents[..len] == Contents;
    }
  }
}
