// When are numbers handed out in increasing order? Exactly as long as nobody
// stores a segment that lies below a number already handed out. Overlapping
// calls, lost replies, expiry and late commands of every other kind do no harm.
module SeqOrder {
  import opened Options
  import opened SeqConversation
  import opened SeqAllocator
  import opened SeqSafety

  ghost predicate AllBelow(granted: seq<Grant>, x: int) {
    forall g :: 0 <= g < |granted| ==> granted[g].range.hi < x
  }

  ghost predicate Rising(granted: seq<Grant>) {
    forall g, h :: 0 <= g < h < |granted| ==> granted[g].range.hi < granted[h].range.lo
  }

  /** Everything was handed out in increasing order, and what is cached lies above it. */
  ghost predicate InOrder(s: System) {
    && Rising(s.server.granted)
    && (s.server.cell.Some? ==> AllBelow(s.server.granted, s.server.cell.value.curr + 1))
  }

  /** What is left in the cache lies above everything handed out. */
  ghost predicate CacheFresh(s: System) {
    s.server.cell.Some? && s.server.cell.value.curr < s.server.cell.value.end ==>
      AllBelow(s.server.granted, s.server.cell.value.curr + 1)
  }

  /** The step stores a segment that does not lie above everything handed out. */
  ghost predicate StoresStale(s: System, step: Step)
    requires Enabled(s, step)
  {
    match step
    case Answered(j, _) => Installs(s, j) && !AllBelow(s.server.granted, s.calls[j].pc.start)
    case Lost(j, _) => Installs(s, j) && !AllBelow(s.server.granted, s.calls[j].pc.start)
    case LateRun(m) =>
      s.late[m].SetSegment? && !AllBelow(s.server.granted, s.late[m].curr + 1)
    case _ => false
  }

  predicate Installs(s: System, j: nat)
    requires j in s.calls
  {
    s.calls[j].pc.Installing?
  }

  /** Every number handed out so far is allocated, so the next segment lies above it. */
  lemma GrantsBelowTop(s: System, b: Book)
    requires Inv(s, b)
    ensures AllBelow(s.server.granted, Issued(s.server.docs) + 1)
  {
    forall g | 0 <= g < |s.server.granted| ensures s.server.granted[g].range.hi <= b.top {
      GivenRange(s, b, g);
      var r := s.server.granted[g].range;
      assert r.Has(r.hi);
    }
  }

  /** The exact condition, step by step: the order survives a step if and only if the step stores
      no stale segment. */
  lemma OrderKeptIffNotStale(s: System, step: Step, maxRetry: int, b: Book)
    requires Inv(s, b) && InOrder(s) && Enabled(s, step)
    ensures InOrder(Next(s, step, maxRetry)) <==> !StoresStale(s, step)
  {
    match step
    case Answered(j, _) => assert CallInv(s.calls[j], j, s.server.granted, b);
    case Lost(j, _) => assert CallInv(s.calls[j], j, s.server.granted, b);
    case LateRun(m) => assert LateInv(s.late[m], m, b);
    case _ =>
  }

  // ---- runs ----

  /** No step of the run stores a stale segment. */
  ghost predicate StaleFree(s: System, steps: seq<Step>, maxRetry: int)
    requires Possible(s, steps, maxRetry)
    decreases |steps|
  {
    steps == [] ||
    (!StoresStale(s, steps[0]) && StaleFree(Next(s, steps[0], maxRetry), steps[1..], maxRetry))
  }

  /** The replies of the grants went to calls that exist. */
  ghost predicate TakersKnown(s: System) {
    forall g :: 0 <= g < |s.server.granted| && s.server.granted[g].taker.Some? ==>
      s.server.granted[g].taker.value in s.calls
  }

  lemma GrantsGrow(s: System, step: Step, maxRetry: int)
    requires Enabled(s, step)
    ensures s.server.granted <= Next(s, step, maxRetry).server.granted
    ensures TakersKnown(s) ==> TakersKnown(Next(s, step, maxRetry))
  {
  }

  lemma {:induction false} OrderRun(s: System, steps: seq<Step>, maxRetry: int, b: Book)
      returns (after: Book)
    requires Inv(s, b) && InOrder(s) && TakersKnown(s)
    requires Possible(s, steps, maxRetry) && StaleFree(s, steps, maxRetry)
    requires FloorsFromIn(s, steps, b.low, maxRetry)
    ensures Inv(Run(s, steps, maxRetry), after)
    ensures InOrder(Run(s, steps, maxRetry)) && TakersKnown(Run(s, steps, maxRetry))
    ensures s.server.granted <= Run(s, steps, maxRetry).server.granted
    decreases |steps|
  {
    hide Next, Inv, InOrder, Enabled, StoresStale, TakersKnown;
    if steps == [] {
      after := b;
    } else {
      OrderKeptIffNotStale(s, steps[0], maxRetry, b);
      GrantsGrow(s, steps[0], maxRetry);
      after := StepKeeps(s, steps[0], maxRetry, b);
      after := OrderRun(Next(s, steps[0], maxRetry), steps[1..], maxRetry, after);
    }
  }

  /** From a fresh cache a step hands out numbers above all earlier ones, and leaves the cache fresh
      if and only if it stores no stale segment. */
  lemma FreshKeptIffNotStale(s: System, step: Step, maxRetry: int, b: Book)
    requires Inv(s, b) && CacheFresh(s) && Enabled(s, step)
    ensures var t := Next(s, step, maxRetry);
      && (CacheFresh(t) <==> !StoresStale(s, step))
      && forall g :: |s.server.granted| <= g < |t.server.granted| ==>
        AllBelow(s.server.granted, t.server.granted[g].range.lo)
  {
    match step
    case Answered(j, _) => assert CallInv(s.calls[j], j, s.server.granted, b);
    case Lost(j, _) => assert CallInv(s.calls[j], j, s.server.granted, b);
    case LateRun(m) => assert LateInv(s.late[m], m, b);
    case _ =>
  }

  lemma {:induction false} FreshRun(s: System, steps: seq<Step>, maxRetry: int, b: Book)
      returns (after: Book)
    requires Inv(s, b) && CacheFresh(s) && TakersKnown(s)
    requires Possible(s, steps, maxRetry) && StaleFree(s, steps, maxRetry)
    requires FloorsFromIn(s, steps, b.low, maxRetry)
    ensures Inv(Run(s, steps, maxRetry), after)
    ensures var t := Run(s, steps, maxRetry);
      && s.server.granted <= t.server.granted
      && forall g :: |s.server.granted| <= g < |t.server.granted| ==>
        AllBelow(s.server.granted, t.server.granted[g].range.lo)
    decreases |steps|
  {
    hide Next, Inv, CacheFresh, Enabled, StoresStale, TakersKnown;
    if steps == [] {
      after := b;
    } else {
      var t := Next(s, steps[0], maxRetry);
      FreshKeptIffNotStale(s, steps[0], maxRetry, b);
      GrantsGrow(s, steps[0], maxRetry);
      after := StepKeeps(s, steps[0], maxRetry, b);
      after := FreshRun(t, steps[1..], maxRetry, after);
      var u := Run(t, steps[1..], maxRetry);
      forall g | |s.server.granted| <= g < |u.server.granted|
        ensures AllBelow(s.server.granted, u.server.granted[g].range.lo)
      {
        assert g < |t.server.granted| ==> u.server.granted[g] == t.server.granted[g];
        assert forall h :: 0 <= h < |s.server.granted| ==>
          t.server.granted[h] == s.server.granted[h];
      }
    }
  }

  lemma {:induction false} FloorsNoMatter(s: System, steps: seq<Step>, low: int, maxRetry: int)
    requires Possible(s, steps, maxRetry) && HasIssued(s.server.docs)
    ensures FloorsFromIn(s, steps, low, maxRetry)
    decreases |steps|
  {
    if steps == [] {
    } else {
      FloorsNoMatter(Next(s, steps[0], maxRetry), steps[1..], low, maxRetry);
    }
  }

  /** While `issued_seq` is absent nothing is owned, so the book can be reopened at any low. */
  lemma Reopen(s: System, b: Book, low: int)
    requires Inv(s, b) && !HasIssued(s.server.docs) && low <= 0
    ensures Inv(s, Book(map[], low, low)) && s.server.granted == []
  {
    if s.server.granted != [] {
      GivenRange(s, b, 0);
      var r := s.server.granted[0].range;
      assert r.Has(r.lo);
    }
    forall j | j in s.calls ensures !s.calls[j].pc.Installing? {
      assert CallInv(s.calls[j], j, s.server.granted, b);
      assert s.calls[j].pc.Installing? ==>
        Range(s.calls[j].pc.start, s.calls[j].pc.end).Has(s.calls[j].pc.start);
    }
    forall m | m in s.late ensures !s.late[m].SetSegment? {
      assert LateInv(s.late[m], m, b);
      assert s.late[m].SetSegment? ==>
        Range(s.late[m].curr + 1, s.late[m].end).Has(s.late[m].curr + 1);
    }
  }

  /** Whatever floors a run stores, some book covers it. */
  lemma Rebook(s: System, steps: seq<Step>, maxRetry: int, b: Book) returns (book: Book)
    requires Inv(s, b) && Possible(s, steps, maxRetry)
    ensures Inv(s, book) && FloorsFromIn(s, steps, book.low, maxRetry)
  {
    hide Inv, Next;
    if HasIssued(s.server.docs) {
      FloorsNoMatter(s, steps, b.low, maxRetry);
      book := b;
    } else {
      var low := LowestFloor(s, steps, maxRetry);
      Reopen(s, b, low);
      book := Book(map[], low, low);
    }
  }

  lemma {:induction false} TakersStayKnown(s: System, steps: seq<Step>, maxRetry: int)
    requires TakersKnown(s) && Possible(s, steps, maxRetry)
    ensures TakersKnown(Run(s, steps, maxRetry))
    decreases |steps|
  {
    hide Next, Enabled, TakersKnown;
    if steps == [] {
    } else {
      GrantsGrow(s, steps[0], maxRetry);
      TakersStayKnown(Next(s, steps[0], maxRetry), steps[1..], maxRetry);
    }
  }

  /** What holds after every run, stale stores included. */
  lemma AfterAnyRun(steps: seq<Step>, maxRetry: int) returns (b: Book)
    requires Possible(INITIAL, steps, maxRetry)
    ensures Inv(Run(INITIAL, steps, maxRetry), b) && TakersKnown(Run(INITIAL, steps, maxRetry))
  {
    var low := LowestFloor(INITIAL, steps, maxRetry);
    b := RunKeeps(INITIAL, steps, maxRetry, Book(map[], low, low));
    TakersStayKnown(INITIAL, steps, maxRetry);
  }

  /** In a run without stale stores everything is handed out in increasing order, and the cache is
      fresh at the end. */
  lemma StaleFreeRunsRise(steps: seq<Step>, maxRetry: int)
    requires Possible(INITIAL, steps, maxRetry) && StaleFree(INITIAL, steps, maxRetry)
    ensures var s := Run(INITIAL, steps, maxRetry); Rising(s.server.granted) && CacheFresh(s)
  {
    var low := LowestFloor(INITIAL, steps, maxRetry);
    var b := OrderRun(INITIAL, steps, maxRetry, Book(map[], low, low));
  }

  /** The grant behind a call's result is newer than every grant made before the call began. */
  lemma NewGrant(s: System, t: System, b: Book, j: nat)
    requires TakersKnown(s) && Inv(t, b) && s.server.granted <= t.server.granted
    requires j !in s.calls && j in t.calls && t.calls[j].pc.Done?
    ensures |s.server.granted| <= t.calls[j].pc.receipt < |t.server.granted|
    ensures t.server.granted[t.calls[j].pc.receipt].range == t.calls[j].Result()
  {
    assert CallInv(t.calls[j], j, t.server.granted, b);
    assert forall k :: 0 <= k < |s.server.granted| ==>
      t.server.granted[k] == s.server.granted[k] && s.server.granted[k].taker != Some(j);
  }

  /** Every call that begins after state `s`, in whatever run without stale stores, receives only
      numbers above everything handed out by then. */
  ghost predicate KeepsPromise(s: System, maxRetry: int) {
    forall steps, j ::
      Possible(s, steps, maxRetry) && StaleFree(s, steps, maxRetry) && j !in s.calls
      && j in Run(s, steps, maxRetry).calls && Run(s, steps, maxRetry).calls[j].pc.Done? ==>
        AllBelow(s.server.granted, Run(s, steps, maxRetry).calls[j].pc.start)
  }

  lemma OrderIsKept(s: System, maxRetry: int, b: Book)
    requires Inv(s, b) && CacheFresh(s) && TakersKnown(s)
    ensures KeepsPromise(s, maxRetry)
  {
    forall steps, j | Possible(s, steps, maxRetry) && StaleFree(s, steps, maxRetry)
        && j !in s.calls && j in Run(s, steps, maxRetry).calls
        && Run(s, steps, maxRetry).calls[j].pc.Done?
      ensures AllBelow(s.server.granted, Run(s, steps, maxRetry).calls[j].pc.start)
    {
      var book := Rebook(s, steps, maxRetry, b);
      var d := FreshRun(s, steps, maxRetry, book);
      NewGrant(s, Run(s, steps, maxRetry), d, j);
    }
  }

  lemma {:induction false} Above(used: set<nat>) returns (j: nat)
    ensures forall i :: i in used ==> i < j
    decreases |used|
  {
    if used == {} {
      j := 0;
    } else {
      var i :| i in used;
      var k := Above(used - {i});
      j := if i < k then k else i + 1;
      assert forall x :: x in used ==> x == i || x in used - {i};
    }
  }

  /** On a cached segment that is stale, the very next call is given a number that is too small. */
  lemma StaleIsServed(s: System, maxRetry: int)
    requires s.server.cell.Some? && s.server.cell.value.curr < s.server.cell.value.end
    requires !AllBelow(s.server.granted, s.server.cell.value.curr + 1)
    ensures !KeepsPromise(s, maxRetry)
  {
    var j := Above(s.calls.Keys);
    var steps := [Start(j, 1), Answered(j, 0)];
    var t := Next(s, steps[0], maxRetry);
    var u := Next(t, steps[1], maxRetry);
    assert t.calls[j] == Begin(1) && j !in s.calls;
    assert steps[1..] == [steps[1]] && steps[1..][1..] == [];
    assert Possible(u, steps[1..][1..], maxRetry) && Possible(t, steps[1..], maxRetry);
    assert Run(t, steps[1..], maxRetry) == Run(u, steps[1..][1..], maxRetry) == u;
    assert Possible(s, steps, maxRetry) && Run(s, steps, maxRetry) == u;
    assert !StoresStale(s, steps[0]) && !StoresStale(t, steps[1]);
    assert StaleFree(t, steps[1..], maxRetry) && StaleFree(s, steps, maxRetry);
    assert u.calls[j].pc == Done(s.server.cell.value.curr + 1, |s.server.granted|);
  }

  /** The exact condition, in what callers see: after any run whatever, stale stores included, every
      later call gets only larger numbers if and only if what is left in the cache is fresh. So a
      stale segment does harm exactly until it has expired, is used up or is overwritten. */
  lemma PromiseHoldsIffFresh(steps: seq<Step>, maxRetry: int)
    requires Possible(INITIAL, steps, maxRetry)
    ensures var s := Run(INITIAL, steps, maxRetry); KeepsPromise(s, maxRetry) <==> CacheFresh(s)
  {
    var s := Run(INITIAL, steps, maxRetry);
    var b := AfterAnyRun(steps, maxRetry);
    if CacheFresh(s) {
      OrderIsKept(s, maxRetry, b);
    } else {
      StaleIsServed(s, maxRetry);
    }
  }

  /** Step by step: after any run, a step keeps the promise if and only if it stores no stale
      segment. */
  lemma LaterCallsGetLargerNumbersIff(steps: seq<Step>, step: Step, maxRetry: int)
    requires Possible(INITIAL, steps, maxRetry) && Enabled(Run(INITIAL, steps, maxRetry), step)
    requires KeepsPromise(Run(INITIAL, steps, maxRetry), maxRetry)
    ensures var s := Run(INITIAL, steps, maxRetry);
      KeepsPromise(Next(s, step, maxRetry), maxRetry) <==> !StoresStale(s, step)
  {
    var s := Run(INITIAL, steps, maxRetry);
    var t := Next(s, step, maxRetry);
    var b := AfterAnyRun(steps, maxRetry);
    PromiseHoldsIffFresh(steps, maxRetry);
    FreshKeptIffNotStale(s, step, maxRetry, b);
    if CacheFresh(t) {
      GrantsGrow(s, step, maxRetry);
      var book := Rebook(s, [step], maxRetry, b);
      var after := StepKeeps(s, step, maxRetry, book);
      OrderIsKept(t, maxRetry, after);
    } else {
      StaleIsServed(t, maxRetry);
    }
  }

  /** Order over whole runs, overlapping calls and faults included: if call i has its numbers before
      call j begins, what is cached at that point is fresh, and no stale segment is stored from then
      on, everything j receives is above everything i received. */
  lemma LaterCallsGetLargerNumbers(before: seq<Step>, rest: seq<Step>, maxRetry: int, i: nat,
                                   want: int, j: nat)
    requires Possible(INITIAL, before, maxRetry) && Start(i, want) in before
    requires var s := Run(INITIAL, before, maxRetry);
      && CacheFresh(s) && i in s.calls && s.calls[i].pc.Done? && j !in s.calls
      && Possible(s, rest, maxRetry) && StaleFree(s, rest, maxRetry)
      && var t := Run(s, rest, maxRetry); j in t.calls && t.calls[j].pc.Done?
    ensures var s := Run(INITIAL, before, maxRetry);
      var t := Run(s, rest, maxRetry);
      s.calls[i].pc.start + (if want <= 0 then 1 else want) <= t.calls[j].pc.start
  {
    var s := Run(INITIAL, before, maxRetry);
    var b := AfterAnyRun(before, maxRetry);
    OrderIsKept(s, maxRetry, b);
    GrantedAsAsked(before, maxRetry, i, want);
  }

  // ---- calls one after another ----

  /** One call at a time, and no command executed after its sender gave up. Expiry, lost replies,
      commands that never arrive and other uses of the store remain possible. */
  predicate Orderly(s: System, step: Step) {
    && Enabled(s, step)
    && !step.LateRun?
    && (step.Start? ==> forall j :: j in s.calls ==> !s.calls[j].Active())
  }

  predicate OrderlyRun(s: System, steps: seq<Step>, maxRetry: int)
    decreases |steps|
  {
    steps == [] ||
    (Orderly(s, steps[0]) && OrderlyRun(Next(s, steps[0], maxRetry), steps[1..], maxRetry))
  }

  /** At most one call is under way, and a segment it holds lies above everything handed out. */
  ghost predicate OneAtATime(s: System) {
    && (forall j :: j in s.calls && s.calls[j].pc.Installing? ==>
      AllBelow(s.server.granted, s.calls[j].pc.start))
    && (forall i, j :: i in s.calls && j in s.calls && s.calls[i].Active() && s.calls[j].Active() ==>
      i == j)
  }

  lemma OrderlyStoresNothingStale(s: System, step: Step, maxRetry: int, b: Book)
    requires Inv(s, b) && OneAtATime(s) && Orderly(s, step)
    ensures !StoresStale(s, step) && OneAtATime(Next(s, step, maxRetry))
  {
    GrantsBelowTop(s, b);
  }

  /** Calls that follow one another, with no command arriving late, never store a stale segment; so
      the order results hold of them without any condition. */
  lemma {:induction false} OrderlyRunsAreStaleFree(s: System, steps: seq<Step>, maxRetry: int, b: Book)
    requires Inv(s, b) && OneAtATime(s) && OrderlyRun(s, steps, maxRetry)
    ensures Possible(s, steps, maxRetry) && StaleFree(s, steps, maxRetry)
    decreases |steps|
  {
    hide Next, Inv, OneAtATime, StoresStale;
    if steps == [] {
    } else {
      assert Possible(s, [steps[0]], maxRetry);
      var book := Rebook(s, [steps[0]], maxRetry, b);
      OrderlyStoresNothingStale(s, steps[0], maxRetry, book);
      var after := StepKeeps(s, steps[0], maxRetry, book);
      OrderlyRunsAreStaleFree(Next(s, steps[0], maxRetry), steps[1..], maxRetry, after);
    }
  }

  /** From the start: calls strictly one after another. */
  lemma SequentialRunsAreStaleFree(steps: seq<Step>, maxRetry: int)
    requires OrderlyRun(INITIAL, steps, maxRetry)
    ensures Possible(INITIAL, steps, maxRetry) && StaleFree(INITIAL, steps, maxRetry)
  {
    OrderlyRunsAreStaleFree(INITIAL, steps, maxRetry, Book(map[], 0, 0));
  }
}
