/** The selection-sampling fallback of `c_sample` and its exact uniformity. */
module Sample {

  /** Which positions are taken: one draw per position until the sample is full.
      `draws[0]` is uniform over the elements not yet passed. */
  function Pattern(size: nat, n: nat, draws: seq<nat>): (pattern: seq<bool>)
    requires n <= size == |draws|
    requires InRange(draws)
    ensures |pattern| == size && Count(pattern) == n
    decreases size
  {
    if size == 0 then []
    else if n == 0 then [false] + Pattern(size - 1, 0, draws[1..])
    else if draws[0] < n then [true] + Pattern(size - 1, n - 1, draws[1..])
    else [false] + Pattern(size - 1, n, draws[1..])
  }

  /** Draw number `i` lies between 0 and the number of elements after position `i`. */
  predicate InRange(draws: seq<nat>) {
    forall i :: 0 <= i < |draws| ==> draws[i] <= |draws| - 1 - i
  }

  function Count(pattern: seq<bool>): nat {
    if pattern == [] then 0 else (if pattern[0] then 1 else 0) + Count(pattern[1..])
  }

  /** The elements at the positions that are taken, in order. */
  function Taken<T>(c: seq<T>, pattern: seq<bool>): (r: seq<T>)
    requires |c| == |pattern|
    ensures |r| == Count(pattern)
  {
    if c == [] then []
    else (if pattern[0] then [c[0]] else []) + Taken(c[1..], pattern[1..])
  }

  lemma {:induction false} NothingTaken<T>(c: seq<T>, draws: seq<nat>)
    requires |c| == |draws| && InRange(draws)
    ensures Taken(c, Pattern(|c|, 0, draws)) == []
  {
    if c != [] {
      NothingTaken(c[1..], draws[1..]);
    }
  }

  /** What one round of the loop contributes. */
  lemma TakenStep<T>(c: seq<T>, n: nat, draws: seq<nat>)
    requires |c| == |draws| && InRange(draws) && 0 < n <= |c|
    ensures InRange(draws[1..]) && (draws[0] >= n ==> n < |c|)
    ensures Taken(c, Pattern(|c|, n, draws)) ==
      if draws[0] < n then [c[0]] + Taken(c[1..], Pattern(|c| - 1, n - 1, draws[1..]))
      else Taken(c[1..], Pattern(|c| - 1, n, draws[1..]))
  {
    InRangeSplit(draws);
    var rest := Pattern(|c| - 1, if draws[0] < n then n - 1 else n, draws[1..]);
    assert ([draws[0] < n] + rest)[1..] == rest;
  }

  /** The first position, and the others. */
  lemma PatternFirst(size: nat, n: nat, draws: seq<nat>)
    requires n <= size == |draws| && InRange(draws) && size > 0
    ensures InRange(draws[1..])
    ensures var take := 0 < n && draws[0] < n; var m := if take then n - 1 else n;
      m <= size - 1 && Pattern(size, n, draws) == [take] + Pattern(size - 1, m, draws[1..])
  {
    InRangeSplit(draws);
  }

  lemma HeadAndTail(b: bool, rest: seq<bool>, pattern: seq<bool>)
    requires pattern != []
    ensures [b] + rest == pattern <==> b == pattern[0] && rest == pattern[1..]
  {
    assert pattern == [pattern[0]] + pattern[1..];
    assert ([b] + rest)[0] == b && ([b] + rest)[1..] == rest;
  }

  /** Position `i` is taken exactly if its draw is below the number of elements still
      wanted there. */
  lemma {:induction false} PatternAt(size: nat, n: nat, draws: seq<nat>, i: nat)
    requires n <= size == |draws| && InRange(draws) && i < size
    ensures Pattern(size, n, draws)[i] <==> draws[i] < n - Count(Pattern(size, n, draws)[..i])
    decreases size
  {
    hide Pattern, InRange;
    PatternFirst(size, n, draws);
    var pattern := Pattern(size, n, draws);
    var m := if 0 < n && draws[0] < n then n - 1 else n;
    if i == 0 {
      assert pattern[..0] == [];
    } else {
      assert pattern[1..] == Pattern(size - 1, m, draws[1..]);
      assert pattern[..i][1..] == pattern[1..][..i - 1] && pattern[..i][0] == pattern[0];
      PatternAt(size - 1, m, draws[1..], i - 1);
    }
  }

  /** The sample keeps the order: a taken element stands behind as many as were taken
      before it. */
  lemma {:induction false} TakenAt<T>(c: seq<T>, pattern: seq<bool>, i: nat)
    requires |c| == |pattern| && i < |c| && pattern[i]
    ensures Count(pattern[..i]) < |Taken(c, pattern)| && Taken(c, pattern)[Count(pattern[..i])] == c[i]
    decreases |c|
  {
    if i == 0 {
      assert pattern[..0] == [];
    } else {
      assert pattern[..i][1..] == pattern[1..][..i - 1] && pattern[..i][0] == pattern[0];
      TakenAt(c[1..], pattern[1..], i - 1);
    }
  }

  /** Runs on draws supplied by the caller; those after the last one used are padding.
      `within` says whether the loop ends before it asks for a draw behind the last
      element: a negative count selects nothing and never ends by itself. */
  method CSample<T>(c: seq<T>, count: int, draws: seq<nat>) returns (within: bool, result: seq<T>)
    requires |draws| == |c| && InRange(draws)
    ensures within <==> 0 <= count
    ensures within ==> var n := if count <= |c| then count else |c|;
      result == Taken(c, Pattern(|c|, n, draws)) && |result| == n
    ensures !within ==> result == []
  {
    hide Taken, Pattern, InRange;
    var unsampled := |c|;
    var n := if count <= unsampled then count else unsampled;
    ghost var all := if count < 0 then [] else Taken(c, Pattern(|c|, n, draws));
    var first := 0;
    within, result := true, [];
    assert c[0..] == c && draws[0..] == draws && [] + all == all;
    while n != 0
      invariant 0 <= first && first + unsampled == |c| && 0 <= unsampled && n <= unsampled
      invariant if count < 0 then n == count && result == [] else
        && 0 <= n && InRange(draws[first..])
        && result + Taken(c[first..], Pattern(unsampled, n, draws[first..])) == all
      decreases unsampled
    {
      if unsampled == 0 {
        return false, result;
      }
      if 0 <= count {
        TakenStep(c[first..], n, draws[first..]);
        assert draws[first..][1..] == draws[first + 1..] && c[first..][1..] == c[first + 1..];
      }
      unsampled := unsampled - 1;
      var r := draws[first];
      if r < n {
        result := result + [c[first]];
        n := n - 1;
      }
      first := first + 1;
    }
    NothingTaken(c[first..], draws[first..]);
    assert result + [] == result;
  }

  // ------------------------------------------------------------------------
  // Uniformity
  // ------------------------------------------------------------------------

  function Factorial(n: nat): nat {
    if n == 0 then 1 else n * Factorial(n - 1)
  }

  /** All sequences that start with `r` and go on with one of `tails`. */
  function Prefixed(r: nat, tails: set<seq<nat>>): set<seq<nat>> {
    set d | d in tails :: [r] + d
  }

  /** All sequences that start with one of `lo..hi` and go on with one of `tails`. */
  function Extended(lo: nat, hi: nat, tails: set<seq<nat>>): set<seq<nat>>
    requires lo <= hi
    decreases hi
  {
    if lo == hi then {} else Extended(lo, hi - 1, tails) + Prefixed(hi - 1, tails)
  }

  /** All sequences of draws for `size` elements. */
  function Draws(size: nat): set<seq<nat>> {
    if size == 0 then {[]} else Extended(0, size, Draws(size - 1))
  }

  lemma PrefixedMember(r: nat, tails: set<seq<nat>>, d: seq<nat>)
    ensures d in Prefixed(r, tails) <==> d != [] && d[0] == r && d[1..] in tails
  {
    if d != [] {
      assert d == [d[0]] + d[1..];
    }
  }

  lemma {:induction false} ExtendedMember(lo: nat, hi: nat, tails: set<seq<nat>>, d: seq<nat>)
    requires lo <= hi
    ensures d in Extended(lo, hi, tails) <==> d != [] && lo <= d[0] < hi && d[1..] in tails
    decreases hi
  {
    hide Prefixed;
    if lo < hi {
      ExtendedMember(lo, hi - 1, tails, d);
      PrefixedMember(hi - 1, tails, d);
    }
  }

  lemma InRangeSplit(d: seq<nat>)
    requires d != []
    ensures InRange(d) <==> d[0] <= |d| - 1 && InRange(d[1..])
  {
    if d[0] <= |d| - 1 && InRange(d[1..]) {
      forall i | 0 <= i < |d| ensures d[i] <= |d| - 1 - i {
        assert i > 0 ==> d[i] == d[1..][i - 1];
      }
    }
  }

  /** These are all the sequences the generator can produce. */
  lemma {:induction false} DrawsMember(size: nat, d: seq<nat>)
    ensures d in Draws(size) <==> |d| == size && InRange(d)
  {
    if size > 0 {
      hide Extended;
      ExtendedMember(0, size, Draws(size - 1), d);
      if d != [] {
        DrawsMember(size - 1, d[1..]);
        InRangeSplit(d);
      }
    }
  }

  lemma {:induction false} PrefixedSize(r: nat, tails: set<seq<nat>>)
    ensures |Prefixed(r, tails)| == |tails|
    decreases tails
  {
    if tails != {} {
      var d :| d in tails;
      PrefixedSize(r, tails - {d});
      assert Prefixed(r, tails) == Prefixed(r, tails - {d}) + {[r] + d};
      PrefixedMember(r, tails - {d}, [r] + d);
      assert ([r] + d)[1..] == d;
    }
  }

  lemma PrefixedIsNew(lo: nat, hi: nat, tails: set<seq<nat>>)
    requires lo <= hi
    ensures Extended(lo, hi, tails) !! Prefixed(hi, tails)
  {
    hide Extended, Prefixed;
    forall d | d in Extended(lo, hi, tails) ensures d !in Prefixed(hi, tails) {
      ExtendedMember(lo, hi, tails, d);
      PrefixedMember(hi, tails, d);
    }
  }

  lemma {:induction false} ExtendedSize(lo: nat, hi: nat, tails: set<seq<nat>>)
    requires lo <= hi
    ensures |Extended(lo, hi, tails)| == (hi - lo) * |tails|
    decreases hi
  {
    hide Prefixed;
    if lo < hi {
      ExtendedSize(lo, hi - 1, tails);
      PrefixedSize(hi - 1, tails);
      PrefixedIsNew(lo, hi - 1, tails);
      assert (hi - lo) * |tails| == (hi - 1 - lo) * |tails| + |tails|;
    }
  }

  lemma {:induction false} DrawsSize(size: nat)
    ensures |Draws(size)| == Factorial(size)
  {
    if size > 0 {
      DrawsSize(size - 1);
      ExtendedSize(0, size, Draws(size - 1));
    }
  }

  /** The sequences of draws that select exactly `pattern`. */
  ghost function Selecting(pattern: seq<bool>, n: nat): set<seq<nat>>
    requires n <= |pattern|
  {
    set d | d in Draws(|pattern|) && |d| == |pattern| && InRange(d) && Pattern(|pattern|, n, d) == pattern
  }

  lemma SelectingMember(pattern: seq<bool>, n: nat, d: seq<nat>)
    requires n <= |pattern|
    ensures d in Selecting(pattern, n) <==> |d| == |pattern| && InRange(d) && Pattern(|pattern|, n, d) == pattern
  {
    DrawsMember(|pattern|, d);
  }

  lemma SplitDraw(pattern: seq<bool>, n: nat, d: seq<nat>)
    requires |d| == |pattern| > 0 && InRange(d) && n == Count(pattern) && Count(pattern[1..]) <= |pattern| - 1
    ensures InRange(d[1..])
    ensures Pattern(|d|, n, d) == pattern <==>
      if n == 0 then Pattern(|d| - 1, 0, d[1..]) == pattern[1..]
      else if pattern[0] then d[0] < n && Pattern(|d| - 1, n - 1, d[1..]) == pattern[1..]
      else n <= d[0] && Pattern(|d| - 1, n, d[1..]) == pattern[1..]
  {
    hide Pattern, InRange;
    PatternFirst(|d|, n, d);
    var take := 0 < n && d[0] < n;
    HeadAndTail(take, Pattern(|d| - 1, if take then n - 1 else n, d[1..]), pattern);
    if n == 0 {
      CountNone(pattern);
    }
  }

  lemma CountNone(pattern: seq<bool>)
    requires pattern != [] && Count(pattern) == 0
    ensures !pattern[0]
  {
  }

  /** The first draws that treat the first position as `pattern` does. */
  function Lowest(pattern: seq<bool>, n: nat): nat
    requires pattern != []
  {
    if n == 0 || pattern[0] then 0 else n
  }

  function Above(pattern: seq<bool>, n: nat): nat
    requires pattern != []
  {
    if n > 0 && pattern[0] then n else |pattern|
  }

  lemma CountSplit(pattern: seq<bool>)
    requires pattern != []
    ensures var n, m := Count(pattern), Count(pattern[1..]);
      && m <= |pattern| - 1
      && n <= |pattern|
      && n == (if pattern[0] then m + 1 else m)
      && Lowest(pattern, n) <= Above(pattern, n)
  {
    CountBound(pattern[1..]);
  }

  lemma SelectingSplitAt(pattern: seq<bool>, n: nat, m: nat, d: seq<nat>)
    requires pattern != [] && n == Count(pattern) <= |pattern| && m == Count(pattern[1..]) <= |pattern| - 1
    requires Lowest(pattern, n) <= Above(pattern, n)
    ensures d in Selecting(pattern, n)
       <==> d in Extended(Lowest(pattern, n), Above(pattern, n), Selecting(pattern[1..], m))
  {
    hide Selecting, Extended, Pattern, InRange, Count;
    CountSplit(pattern);
    SelectingMember(pattern, n, d);
    ExtendedMember(Lowest(pattern, n), Above(pattern, n), Selecting(pattern[1..], m), d);
    if d != [] {
      SelectingMember(pattern[1..], m, d[1..]);
      InRangeSplit(d);
      if |d| == |pattern| && InRange(d) {
        SplitDraw(pattern, n, d);
      }
    }
  }

  /** A selecting sequence is a first draw on the right side of the threshold
      and a sequence that selects the rest. */
  lemma SelectingSplit(pattern: seq<bool>, n: nat, m: nat)
    requires pattern != [] && n == Count(pattern) <= |pattern| && m == Count(pattern[1..]) <= |pattern| - 1
    requires Lowest(pattern, n) <= Above(pattern, n)
    ensures Selecting(pattern, n) == Extended(Lowest(pattern, n), Above(pattern, n), Selecting(pattern[1..], m))
  {
    hide Selecting, Extended, Count, Lowest, Above;
    forall d: seq<nat>
      ensures d in Selecting(pattern, n)
         <==> d in Extended(Lowest(pattern, n), Above(pattern, n), Selecting(pattern[1..], m))
    {
      SelectingSplitAt(pattern, n, m, d);
    }
  }

  lemma {:induction false} CountBound(pattern: seq<bool>)
    ensures Count(pattern) <= |pattern|
  {
    if pattern != [] {
      CountBound(pattern[1..]);
    }
  }

  lemma Product(a: nat, b: nat, c: nat)
    ensures a * (b * c) == (a * b) * c == b * (a * c)
  {
  }

  lemma FactorialStep(a: nat, b: nat)
    ensures a > 0 ==> a * (Factorial(a - 1) * Factorial(b)) == Factorial(a) * Factorial(b)
    ensures b > 0 ==> b * (Factorial(a) * Factorial(b - 1)) == Factorial(a) * Factorial(b)
  {
    if a > 0 {
      Product(a, Factorial(a - 1), Factorial(b));
    }
    if b > 0 {
      Product(b, Factorial(a), Factorial(b - 1));
    }
  }

  /** The number of admissible first draws times the count for the rest. */
  lemma SelectingStep(pattern: seq<bool>, n: nat, m: nat, rest: nat)
    requires pattern != [] && n == Count(pattern) <= |pattern| && m == Count(pattern[1..]) <= |pattern| - 1
    requires rest == Factorial(m) * Factorial(|pattern| - 1 - m)
    ensures (Above(pattern, n) - Lowest(pattern, n)) * rest == Factorial(n) * Factorial(|pattern| - n)
  {
    hide Factorial;
    FactorialStep(n, |pattern| - n);
  }

  lemma SelectingNothing()
    ensures Selecting([], 0) == {[]} && Factorial(0) == 1
  {
  }

  lemma {:induction false} SelectingSize(pattern: seq<bool>)
    requires Count(pattern) <= |pattern|
    ensures |Selecting(pattern, Count(pattern))| == Factorial(Count(pattern)) * Factorial(|pattern| - Count(pattern))
    decreases |pattern|
  {
    hide Selecting, Extended, Factorial, Lowest, Above;
    if pattern == [] {
      SelectingNothing();
    } else {
      CountSplit(pattern);
      var n, m := Count(pattern), Count(pattern[1..]);
      SelectingSize(pattern[1..]);
      SelectingSplit(pattern, n, m);
      ExtendedSize(Lowest(pattern, n), Above(pattern, n), Selecting(pattern[1..], m));
      SelectingStep(pattern, n, m, |Selecting(pattern[1..], m)|);
    }
  }

  /** Exact uniformity: every choice of `n` positions out of `N` is selected by
      the same number n! * (N - n)! of the N! sequences of draws. */
  lemma Uniform(pattern: seq<bool>)
    ensures Count(pattern) <= |pattern|
    ensures |Draws(|pattern|)| == Factorial(|pattern|)
    ensures |Selecting(pattern, Count(pattern))| == Factorial(Count(pattern)) * Factorial(|pattern| - Count(pattern))
  {
    CountBound(pattern);
    DrawsSize(|pattern|);
    SelectingSize(pattern);
  }
}
