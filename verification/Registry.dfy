// The load balancer of service/registry/registry.go: instances, the parsing of
// their weights, and the rotation over a list of mutable items.
module Registry {
  import opened Options
  import opened SwrrFairness
  import opened SwrrSpec

  datatype Instance = Instance(
    service: string,
    id: string,
    address: string,
    port: int,
    metadata: Option<map<string, string>>,
    ephemeral: bool)

  predicate IsDigit(c: char) {
    '0' <= c <= '9'
  }

  predicate AllDigits(s: string) {
    forall i :: 0 <= i < |s| ==> IsDigit(s[i])
  }

  /** The number a string of digits denotes. */
  function DecimalValue(s: string): (n: nat)
    requires AllDigits(s)
  {
    if s == "" then 0
    else DecimalValue(s[..|s| - 1]) * 10 + (s[|s| - 1] as int - '0' as int)
  }

  function Decimal(n: nat): (s: string)
    ensures s != "" && AllDigits(s)
  {
    var last := [('0' as int + n % 10) as char];
    if n < 10 then last else Decimal(n / 10) + last
  }

  /** The weight a text stands for: its value when it is a positive number in plain digits, and
      1 for everything else (signs, blanks, other characters, zero, the empty text). */
  function TextWeight(s: string): (w: int)
    ensures w >= 1
  {
    if AllDigits(s) && DecimalValue(s) >= 1 then DecimalValue(s) else 1
  }

  function WeightOf(meta: Option<map<string, string>>): (w: int)
    ensures w >= 1
  {
    if meta.Some? && "weight" in meta.value then TextWeight(meta.value["weight"]) else 1
  }

  method ParseWeight(meta: Option<map<string, string>>) returns (w: int)
    ensures w == WeightOf(meta)
    ensures meta.None? || "weight" !in meta.value ==> w == 1
    ensures meta.Some? && "weight" in meta.value ==>
      var text := meta.value["weight"];
      && ((exists i :: 0 <= i < |text| && (text[i] < '0' || text[i] > '9')) ==> w == 1)
      && (AllDigits(text) ==> w == if DecimalValue(text) == 0 then 1 else DecimalValue(text))
      && (text == "" ==> w == 1)
  {
    if meta.None? {
      return 1;
    }
    if "weight" !in meta.value || meta.value["weight"] == "" {
      return 1;
    }
    var text := meta.value["weight"];
    var n, sign := 0, 1;
    for i := 0 to |text|
      invariant sign == 1 || (sign == -1 && i >= 1 && !IsDigit(text[0]))
      invariant sign == 1 ==> AllDigits(text[..i]) && n == DecimalValue(text[..i])
      invariant n >= 0
    {
      if i == 0 && text[i] == '-' {
        sign := -1;
      } else {
        if text[i] < '0' || text[i] > '9' {
          return 1;
        }
        assert text[..i + 1][..i] == text[..i];
        n := n * 10 + (text[i] as int - '0' as int);
      }
    }
    assert text[..|text|] == text;
    n := n * sign;
    if n <= 0 {
      return 1;
    }
    return n;
  }

  /** Decimal notation: the empty text is 0, and a further digit adds its value to ten times what
      stands before it. */
  lemma DecimalNotation(s: string, digit: nat)
    requires AllDigits(s) && digit <= 9
    ensures DecimalValue("") == 0
    ensures AllDigits(s + ["0123456789"[digit]])
    ensures DecimalValue(s + ["0123456789"[digit]]) == 10 * DecimalValue(s) + digit
  {
    var t := s + ["0123456789"[digit]];
    assert t[..|t| - 1] == s;
    assert "0123456789"[digit] as int - '0' as int == digit;
  }

  /** Every positive weight can be written, and is read back as written. */
  lemma {:induction false} DecimalRoundTrip(n: nat)
    ensures DecimalValue(Decimal(n)) == n
  {
    var s := Decimal(n);
    if n < 10 {
      assert s[..0] == "";
    } else {
      DecimalRoundTrip(n / 10);
      assert s[..|s| - 1] == Decimal(n / 10);
    }
  }

  lemma WeightRoundTrip(n: nat)
    requires n >= 1
    ensures WeightOf(Some(map["weight" := Decimal(n)])) == n
    ensures WeightOf(Some(map["weight" := "-" + Decimal(n)])) == 1
  {
    DecimalRoundTrip(n);
    assert !IsDigit(("-" + Decimal(n))[0]);
  }

  class SwItem {
    var inst: Instance
    var weight: int
    var current: int
    var effective: bool

    constructor (inst: Instance, weight: int)
      ensures this.inst == inst && this.weight == weight
      ensures current == 0 && effective
    {
      this.inst, this.weight, this.current, this.effective := inst, weight, 0, true;
    }
  }

  function Weights(insts: seq<Instance>): (w: seq<int>)
    ensures |w| == |insts| && Positive(w)
  {
    seq(|insts|, i requires 0 <= i < |insts| => WeightOf(insts[i].metadata))
  }

  /** Position `b` is the leftmost largest of the first `n` entries. */
  predicate Leads(s: seq<int>, n: nat, b: nat) {
    && b < n <= |s|
    && (forall i :: 0 <= i < n ==> s[i] <= s[b])
    && (forall i :: 0 <= i < b ==> s[i] < s[b])
  }

  lemma SumNext(s: seq<int>, i: nat)
    requires i < |s|
    ensures SumTo(s, i + 1) == SumTo(s, i) + s[i]
  {
  }

  lemma NextLeader(s: seq<int>, i: nat, b: int)
    requires i < |s| && -1 <= b < i && (b >= 0 <==> i > 0)
    requires b >= 0 ==> Leads(s, i, b)
    ensures Leads(s, i + 1, if b == -1 || s[i] > s[b] then i else b)
  {
  }

  lemma LeaderIsBest(s: seq<int>, b: nat)
    requires Leads(s, |s|, b)
    ensures b == Best(s)
  {
    BestLeads(s, |s|);
    assert s[b] <= s[Best(s)];
  }

  /** `picks` is the schedule so far over weights `w`, and `c` are the counters it leaves. */
  ghost predicate InRotation(w: seq<int>, picks: seq<nat>, c: seq<int>) {
    if w == [] then picks == [] && c == []
    else picks == Schedule(w, |picks|) && c == After(w, |picks|)
  }

  lemma RotationGoesOn(w: seq<int>, picks: seq<nat>, c: seq<int>)
    requires w != [] && InRotation(w, picks, c)
    ensures |c| == |w| && Best(Raise(w, c)) == Pick(w, |picks|)
    ensures InRotation(w, picks + [Pick(w, |picks|)], Step(w, c))
  {
  }

  class SWRR {
    var list: seq<SwItem>

    // The instances of the last Update, the positions chosen since, and the counters as values.
    ghost var insts: seq<Instance>
    ghost var picks: seq<nat>
    ghost var counters: seq<int>

    ghost predicate Distinct()
      reads `list
    {
      forall i, j :: 0 <= i < j < |list| ==> list[i] != list[j]
    }

    ghost predicate WeightsAre(w: seq<int>)
      reads `list, list`weight, list`effective
    {
      && |list| == |w|
      && forall i :: 0 <= i < |list| ==>
        list[i].weight == w[i] && w[i] >= 1 && list[i].effective
    }

    /** What Update fixes: the items carry the instances and their weights. */
    ghost predicate Configured()
      reads `list, `insts, list`inst, list`weight, list`effective
    {
      && Distinct()
      && WeightsAre(Weights(insts))
      && forall i :: 0 <= i < |list| ==> list[i].inst == insts[i]
    }

    ghost predicate CountersAre(c: seq<int>)
      reads `list, list`current
    {
      |list| == |c| && forall i :: 0 <= i < |list| ==> list[i].current == c[i]
    }

    /** The counters and the picks are those of the rotation over the present weights. */
    ghost predicate Valid()
      reads this, list
    {
      && Configured()
      && CountersAre(counters)
      && InRotation(Weights(insts), picks, counters)
    }

    constructor ()
      ensures Valid() && insts == [] && fresh(list)
    {
      list, insts, picks, counters := [], [], [], [];
    }

    /** Rebuilds the list; the rotation starts afresh. */
    method Update(newInsts: seq<Instance>)
      modifies this
      ensures Valid() && fresh(list)
      ensures insts == newInsts && picks == []
    {
      list, insts := [], [];
      picks, counters := [], [];
      for k := 0 to |newInsts|
        invariant |list| == |insts| == k && fresh(list)
        invariant insts == newInsts[..k] && picks == []
        invariant Configured()
        invariant forall i :: 0 <= i < k ==> list[i].current == 0
      {
        var weight := ParseWeight(newInsts[k].metadata);
        var item := new SwItem(newInsts[k], weight);
        list, insts := list + [item], insts + [newInsts[k]];
      }
      counters := seq(|insts|, i => 0);
    }

    /** The first `n` counters are raised, the others are not yet. */
    ghost predicate RaisedTo(raised: seq<int>, c: seq<int>, n: nat)
      reads `list, list`current
    {
      && |list| == |raised| == |c|
      && forall j :: 0 <= j < |list| ==> list[j].current == if j < n then raised[j] else c[j]
    }

    /** The pass over the items: every counter rises by its weight, the weights are totalled and the
        leftmost largest counter is found. */
    method Pass(ghost w: seq<int>, ghost c: seq<int>) returns (leader: nat, total: int)
      requires Distinct() && WeightsAre(w) && CountersAre(c) && list != []
      modifies list`current
      ensures CountersAre(Raise(w, c))
      ensures total == Sum(w) && Leads(Raise(w, c), |list|, leader)
    {
      ghost var raised := Raise(w, c);
      assert SumTo(w, 0) == 0;
      hide SumTo, Leads, Positive;
      total := 0;
      var best := -1;  // position of the best item so far; -1 for none
      for i := 0 to |list|
        invariant total == SumTo(w, i)
        invariant -1 <= best < i && (best >= 0 <==> i > 0)
        invariant best >= 0 ==> Leads(raised, i, best)
        invariant RaisedTo(raised, c, i)
      {
        hide RaisedTo, Raise, CountersAre;
        SumNext(w, i);
        if list[i].effective && list[i].weight > 0 {
          RaisedFacts(w, c, i, best);
          NextLeader(raised, i, best);
          total := total + list[i].weight;
          best := RaiseOne(w, c, i, best);
        }
      }
      leader := best;
    }

    lemma RaisedFacts(w: seq<int>, c: seq<int>, i: nat, best: int)
      requires |w| == |c| && RaisedTo(Raise(w, c), c, i) && -1 <= best < i < |list|
      ensures |Raise(w, c)| == |list| && list[i].current == c[i] && Raise(w, c)[i] == c[i] + w[i]
      ensures best >= 0 ==> list[best].current == Raise(w, c)[best]
    {
    }

    /** One item of the pass. */
    method RaiseOne(ghost w: seq<int>, ghost c: seq<int>, i: nat, best: int) returns (next: int)
      requires Distinct() && |w| == |c| && RaisedTo(Raise(w, c), c, i) && -1 <= best < i < |list|
      requires list[i].weight == w[i]
      modifies list`current
      ensures RaisedTo(Raise(w, c), c, i + 1)
      ensures next == if best == -1 || Raise(w, c)[i] > Raise(w, c)[best] then i else best
    {
      var it := list[i];
      it.current := it.current + it.weight;
      next := if best == -1 || it.current > list[best].current then i else best;
    }

    /** One turn: the pass, after which the leader pays the total. */
    method Turn(ghost w: seq<int>, ghost c: seq<int>) returns (best: nat)
      requires Distinct() && WeightsAre(w) && CountersAre(c) && list != []
      modifies list`current
      ensures CountersAre(Step(w, c))
      ensures best == Best(Raise(w, c))
    {
      hide Leads, Best;
      var total: int;
      best, total := Pass(w, c);
      LeaderIsBest(Raise(w, c), best);
      list[best].current := list[best].current - total;
    }

    /** Chooses the next instance of the rotation, or none when there are no instances. */
    method Next() returns (r: Option<Instance>)
      requires Valid()
      modifies this`picks, this`counters, list`current
      ensures Valid() && insts == old(insts)
      ensures list == [] ==> r == None && picks == old(picks)
      ensures list != [] ==>
        && picks == old(picks) + [Pick(Weights(insts), |old(picks)|)]
        && r == Some(insts[Pick(Weights(insts), |old(picks)|)])
    {
      hide InRotation, After, Schedule, Step, Pick, Best, Raise, Sum, Positive;
      if |list| == 0 {
        return None;
      }
      var best := Turn(Weights(insts), counters);
      RotationGoesOn(Weights(insts), picks, counters);
      picks, counters := picks + [best], Step(Weights(insts), counters);
      return Some(list[best].inst);
    }
  }
}
