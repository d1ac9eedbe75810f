// Smooth weighted round robin: the arithmetic of one rotation, on plain
// sequences of weights and counters indexed by list position.
module SwrrSpec {

  /** The sum of the first `n` entries. */
  function SumTo(s: seq<int>, n: nat): int
    requires n <= |s|
  {
    if n == 0 then 0 else SumTo(s, n - 1) + s[n - 1]
  }

  function Sum(s: seq<int>): int {
    SumTo(s, |s|)
  }

  predicate Positive(w: seq<int>) {
    forall i :: 0 <= i < |w| ==> w[i] >= 1
  }

  function Raise(w: seq<int>, c: seq<int>): (r: seq<int>)
    requires |c| == |w|
  {
    seq(|w|, i requires 0 <= i < |w| => c[i] + w[i])
  }

  /** The leftmost position of the largest of the first `n` entries. */
  function BestTo(s: seq<int>, n: nat): (b: nat)
    requires 0 < n <= |s|
    ensures b < n
  {
    if n == 1 then 0
    else
      var b := BestTo(s, n - 1);
      if s[n - 1] > s[b] then n - 1 else b
  }

  function Best(s: seq<int>): (b: nat)
    requires s != []
    ensures b < |s|
  {
    BestTo(s, |s|)
  }

  /** One call: raise every counter by its weight, then charge the winner the total. */
  function Step(w: seq<int>, c: seq<int>): (r: seq<int>)
    requires w != [] && |c| == |w|
    ensures |r| == |w|
  {
    var raised := Raise(w, c);
    raised[Best(raised) := raised[Best(raised)] - Sum(w)]
  }

  /** The counters after `k` calls on a fresh list. */
  function After(w: seq<int>, k: nat): (c: seq<int>)
    requires w != []
    ensures |c| == |w|
  {
    if k == 0 then seq(|w|, i => 0) else Step(w, After(w, k - 1))
  }

  /** The position chosen by call number `k`, counted from 0. */
  function Pick(w: seq<int>, k: nat): (p: nat)
    requires w != []
    ensures p < |w|
  {
    Best(Raise(w, After(w, k)))
  }

  /** The positions chosen by the first `k` calls. */
  function Schedule(w: seq<int>, k: nat): (p: seq<nat>)
    requires w != []
    ensures |p| == k
  {
    if k == 0 then [] else Schedule(w, k - 1) + [Pick(w, k - 1)]
  }

  function Count(p: seq<nat>, i: nat): nat {
    multiset(p)[i]
  }

  lemma {:induction false} BestLeads(s: seq<int>, n: nat)
    requires 0 < n <= |s|
    ensures forall i :: 0 <= i < n ==> s[i] <= s[BestTo(s, n)]
    ensures forall i :: 0 <= i < BestTo(s, n) ==> s[i] < s[BestTo(s, n)]
  {
    if n == 1 {
    } else {
      BestLeads(s, n - 1);
    }
  }
}

// What the rotation promises: exact shares over every W consecutive calls, and
// a bounded debt at every point in between.
module SwrrFairness {
  import opened SwrrSpec

  lemma {:induction false} SumRaise(w: seq<int>, c: seq<int>, n: nat)
    requires |c| == |w| && n <= |w|
    ensures SumTo(Raise(w, c), n) == SumTo(c, n) + SumTo(w, n)
  {
    if n == 0 {
    } else {
      SumRaise(w, c, n - 1);
    }
  }

  lemma {:induction false} SumUpdate(s: seq<int>, b: nat, v: int, n: nat)
    requires b < |s| && n <= |s|
    ensures SumTo(s[b := v], n) == SumTo(s, n) + (if b < n then v - s[b] else 0)
  {
    if n == 0 {
    } else {
      SumUpdate(s, b, v, n - 1);
    }
  }

  lemma {:induction false} SumOfZeros(s: seq<int>, n: nat)
    requires n <= |s|
    requires forall j :: 0 <= j < n ==> s[j] == 0
    ensures SumTo(s, n) == 0
  {
    if n == 0 {
    } else {
      SumOfZeros(s, n - 1);
    }
  }

  lemma {:induction false} SumAtLeast(s: seq<int>, low: int, n: nat)
    requires n <= |s|
    requires forall j :: 0 <= j < n ==> s[j] >= low
    ensures SumTo(s, n) >= n * low
  {
    if n == 0 {
    } else {
      SumAtLeast(s, low, n - 1);
      assert n * low == (n - 1) * low + low;
    }
  }

  lemma {:induction false} SumNotPositive(s: seq<int>, n: nat)
    requires n <= |s|
    requires forall j :: 0 <= j < n ==> s[j] <= 0
    ensures SumTo(s, n) <= 0
  {
    if n == 0 {
    } else {
      SumNotPositive(s, n - 1);
    }
  }

  /** One entry is at most the sum, less the least the others can come to. */
  lemma {:induction false} EntryBound(s: seq<int>, low: int, i: nat, n: nat)
    requires i < n <= |s|
    requires forall j :: 0 <= j < n ==> s[j] >= low
    ensures s[i] <= SumTo(s, n) - (n - 1) * low
  {
    if i == n - 1 {
      SumAtLeast(s, low, n - 1);
    } else {
      EntryBound(s, low, i, n - 1);
      assert (n - 1) * low == (n - 2) * low + low;
    }
  }

  lemma TotalPositive(w: seq<int>)
    requires w != [] && Positive(w)
    ensures Sum(w) >= |w| >= 1
  {
    SumAtLeast(w, 1, |w|);
  }

  lemma StepKeepsSum(w: seq<int>, c: seq<int>)
    requires w != [] && |c| == |w|
    ensures Sum(Step(w, c)) == Sum(c)
  {
    var raised := Raise(w, c);
    var b := Best(raised);
    SumRaise(w, c, |w|);
    SumUpdate(raised, b, raised[b] - Sum(w), |w|);
  }

  /** Conservation: the counters always cancel out. */
  lemma {:induction false} CountersCancel(w: seq<int>, k: nat)
    requires w != []
    ensures Sum(After(w, k)) == 0
  {
    if k == 0 {
      SumOfZeros(After(w, 0), |w|);
    } else {
      CountersCancel(w, k - 1);
      StepKeepsSum(w, After(w, k - 1));
    }
  }

  lemma StepAt(w: seq<int>, c: seq<int>, i: nat)
    requires i < |w| == |c|
    ensures Step(w, c)[i] == c[i] + w[i] - (if Best(Raise(w, c)) == i then Sum(w) else 0)
  {
  }

  lemma CountAppend(p: seq<nat>, x: nat, i: nat)
    ensures Count(p + [x], i) == Count(p, i) + (if x == i then 1 else 0)
  {
  }

  /** What a position with weight `x` has earned in `k` rounds, less what `n` choices cost it. */
  function Owed(k: int, x: int, total: int, n: int): int {
    k * x - total * n
  }

  lemma OwedNothing(x: int, total: int)
    ensures Owed(0, x, total, 0) == 0
  {
  }

  lemma OwedStep(k: int, x: int, total: int, n: int, hit: bool)
    ensures Owed(k - 1, x, total, n) + x - (if hit then total else 0)
         == Owed(k, x, total, n + if hit then 1 else 0)
  {
  }

  lemma {:induction false} CounterIsOwed(w: seq<int>, k: nat, i: nat)
    requires i < |w|
    ensures After(w, k)[i] == Owed(k, w[i], Sum(w), Count(Schedule(w, k), i))
  {
    hide Owed, Sum, Best, Raise;
    if k == 0 {
      assert Count([], i) == 0;
      OwedNothing(w[i], Sum(w));
    } else {
      var c, p, b := After(w, k - 1), Schedule(w, k - 1), Pick(w, k - 1);
      assert b == Best(Raise(w, c)) && After(w, k) == Step(w, c) && Schedule(w, k) == p + [b];
      hide *;
      CounterIsOwed(w, k - 1, i);
      StepAt(w, c, i);
      CountAppend(p, b, i);
      OwedStep(k, w[i], Sum(w), Count(p, i), b == i);
    }
  }

  /** The ledger: a counter is what its position has earned minus what it has been charged. */
  lemma Ledger(w: seq<int>, k: nat, i: nat)
    requires i < |w|
    ensures After(w, k)[i] == k * w[i] - Sum(w) * Count(Schedule(w, k), i)
  {
    CounterIsOwed(w, k, i);
  }

  /** No counter ever falls a whole round behind. */
  lemma {:induction false} DebtBelowOneRound(w: seq<int>, k: nat, i: nat)
    requires i < |w| && Positive(w)
    ensures After(w, k)[i] > -Sum(w)
  {
    TotalPositive(w);
    if k == 0 {
    } else {
      var c := After(w, k - 1);
      var raised := Raise(w, c);
      DebtBelowOneRound(w, k - 1, i);
      CountersCancel(w, k - 1);
      SumRaise(w, c, |w|);
      BestLeads(raised, |raised|);
      if raised[Best(raised)] <= 0 {
        SumNotPositive(raised, |raised|);
      }
      StepAt(w, c, i);
    }
  }

  /** Fairness at every point: no counter strays further than one round down or m-1 rounds up. */
  lemma CounterBounds(w: seq<int>, k: nat, i: nat)
    requires i < |w| && Positive(w)
    ensures -Sum(w) < After(w, k)[i] <= (|w| - 1) * (Sum(w) - 1)
  {
    hide After, SumTo;
    var c := After(w, k);
    var low := 1 - Sum(w);
    forall j | 0 <= j < |c| ensures c[j] >= low {
      DebtBelowOneRound(w, k, j);
    }
    CountersCancel(w, k);
    EntryBound(c, low, i, |c|);
  }

  /** The same in calls received: position i is never more than one round ahead of its due
      k*w_i/W, and never more than m-1 rounds behind. */
  lemma FairAtEveryPoint(w: seq<int>, k: nat, i: nat)
    requires i < |w| && Positive(w)
    ensures Sum(w) * Count(Schedule(w, k), i) < k * w[i] + Sum(w)
    ensures Sum(w) * Count(Schedule(w, k), i) >= k * w[i] - (|w| - 1) * (Sum(w) - 1)
  {
    hide *;
    CounterBounds(w, k, i);
    Ledger(w, k, i);
  }

  lemma Distribute(a: int, b: int, c: int)
    ensures a * b - a * c == a * (b - c)
  {
  }

  lemma AtLeastOneEach(a: int, b: int)
    requires a >= 1 && b >= 1
    ensures a * b >= a
  {
  }

  lemma WholeRound(total: int, x: int, n: int, c: int)
    requires total >= 1 && c == total * x - total * n && c > -total
    ensures c >= 0
    ensures c == 0 ==> n == x
  {
    Distribute(total, x, n);
    if x < n {
      AtLeastOneEach(total, n - x);
      Distribute(total, n, x);
    } else if x > n {
      AtLeastOneEach(total, x - n);
    }
  }

  /** Exact fairness: W calls on a fresh list choose position i exactly w_i times and
      bring every counter back to 0. */
  lemma ExactShares(w: seq<int>, i: nat)
    requires i < |w| && Positive(w)
    ensures Sum(w) >= 1
    ensures Count(Schedule(w, Sum(w)), i) == w[i]
    ensures After(w, Sum(w)) == After(w, 0)
  {
    hide Step, SumTo, Schedule;
    TotalPositive(w);
    var total := Sum(w);
    var c := After(w, total);
    forall j | 0 <= j < |w|
      ensures c[j] >= 0 && (c[j] == 0 ==> Count(Schedule(w, total), j) == w[j])
    {
      Ledger(w, total, j);
      DebtBelowOneRound(w, total, j);
      WholeRound(total, w[j], Count(Schedule(w, total), j), c[j]);
    }
    CountersCancel(w, total);
    forall j | 0 <= j < |w| ensures c[j] == 0 {
      EntryBound(c, 0, j, |c|);
    }
    assert c == seq(|w|, i => 0);
  }

  /** The rotation repeats with period W. */
  lemma {:induction false} Periodic(w: seq<int>, k: nat)
    requires w != [] && Positive(w)
    ensures Sum(w) >= 1
    ensures After(w, k + Sum(w)) == After(w, k)
    ensures Pick(w, k + Sum(w)) == Pick(w, k)
  {
    hide Step, SumTo, Best;
    if k == 0 {
      ExactShares(w, 0);
    } else {
      Periodic(w, k - 1);
    }
  }

  lemma {:induction false} SchedulePrefix(w: seq<int>, j: nat, k: nat)
    requires w != [] && j <= k
    ensures Schedule(w, k)[..j] == Schedule(w, j)
  {
    if j == k {
    } else {
      SchedulePrefix(w, j, k - 1);
    }
  }

  lemma {:induction false} ScheduleAt(w: seq<int>, j: nat, k: nat)
    requires w != [] && j < k
    ensures Schedule(w, k)[j] == Pick(w, j)
  {
    if j == k - 1 {
    } else {
      ScheduleAt(w, j, k - 1);
    }
  }

  lemma CountConcat(p: seq<nat>, q: seq<nat>, i: nat)
    ensures Count(p + q, i) == Count(p, i) + Count(q, i)
  {
  }

  lemma SameDebt(total: int, k: int, x: int, n: int, later: int, c: int)
    requires total >= 1
    requires c == k * x - total * n
    requires c == (k + total) * x - total * later
    ensures later == n + x
  {
    Distribute(x, k + total, k);
    Distribute(total, later, n);
    assert total * (later - n) == total * x;
  }

  lemma RoundAddsShare(w: seq<int>, k: nat, i: nat)
    requires i < |w| && Positive(w)
    ensures Sum(w) >= 1
    ensures Count(Schedule(w, k + Sum(w)), i) == Count(Schedule(w, k), i) + w[i]
  {
    hide *;
    Periodic(w, k);
    var total := Sum(w);
    var later: nat := k + total;
    var c := After(w, k)[i];
    var n, n' := Count(Schedule(w, k), i), Count(Schedule(w, later), i);
    assert c == k * w[i] - total * n by { Ledger(w, k, i); }
    assert c == later * w[i] - total * n' by { Ledger(w, later, i); }
    SameDebt(total, k, w[i], n, n', c);
  }

  /** Any W consecutive calls, aligned or not, choose position i exactly w_i times. */
  lemma AnyRoundIsExact(w: seq<int>, k: nat, i: nat)
    requires i < |w| && Positive(w)
    ensures Sum(w) >= 1
    ensures Count(Schedule(w, k + Sum(w))[k..], i) == w[i]
  {
    hide After, SumTo, Step, Count;
    RoundAddsShare(w, k, i);
    var all := Schedule(w, k + Sum(w));
    SchedulePrefix(w, k, k + Sum(w));
    assert all == Schedule(w, k) + all[k..];
    CountConcat(Schedule(w, k), all[k..], i);
  }

  lemma CountedSomewhere(p: seq<nat>, i: nat) returns (j: nat)
    requires Count(p, i) > 0
    ensures j < |p| && p[j] == i
  {
    assert i in multiset(p);
    j :| j < |p| && p[j] == i;
  }

  /** Consequence: no position waits for a full round, wherever the wait begins. */
  lemma NoStarvation(w: seq<int>, k: nat, i: nat) returns (call: nat)
    requires i < |w| && Positive(w)
    ensures k <= call < k + Sum(w)
    ensures Pick(w, call) == i
  {
    hide After, Schedule;
    AnyRoundIsExact(w, k, i);
    var end := k + Sum(w);
    var j := CountedSomewhere(Schedule(w, end)[k..], i);
    call := k + j;
    ScheduleAt(w, call, end);
  }
}
