// Runs of the allocator together with the stored watermarks, and the runs that
// show which promises do not survive overlap, late commands or negative floors.
module SeqRuns {
  import opened Options
  import opened SeqConversation
  import opened SeqAllocator
  import opened SeqSafety
  import opened SeqOrder

  // ---- the stored watermarks in runs of the allocator ----

  /** Every other use of the store in the run meets the guard of its operation. */
  predicate SafeIn(s: System, steps: seq<Step>, maxRetry: int)
    requires Possible(s, steps, maxRetry)
    decreases |steps|
  {
    steps == [] ||
    ((steps[0].Store? ==> Safe(steps[0].op, s.server.docs))
     && SafeIn(Next(s, steps[0], maxRetry), steps[1..], maxRetry))
  }

  /** The watermarks are in order at every point of the run. */
  predicate OrderedIn(s: System, steps: seq<Step>, maxRetry: int)
    requires Possible(s, steps, maxRetry)
    decreases |steps|
  {
    && Ordered(s.server.docs)
    && (steps == [] || OrderedIn(Next(s, steps[0], maxRetry), steps[1..], maxRetry))
  }

  /** No step of the run lowers a watermark. */
  predicate NeverFallsIn(s: System, steps: seq<Step>, maxRetry: int)
    requires Possible(s, steps, maxRetry)
    decreases |steps|
  {
    steps == [] ||
    (NoLower(s.server.docs, Next(s, steps[0], maxRetry).server.docs)
     && NeverFallsIn(Next(s, steps[0], maxRetry), steps[1..], maxRetry))
  }

  lemma StepOrderedIffSafe(s: System, step: Step, maxRetry: int)
    requires Enabled(s, step) && Ordered(s.server.docs)
    ensures Ordered(Next(s, step, maxRetry).server.docs)
      <==> (step.Store? ==> Safe(step.op, s.server.docs))
    ensures Ordered(Next(s, step, maxRetry).server.docs) ==>
      NoLower(s.server.docs, Next(s, step, maxRetry).server.docs)
  {
    if step.Store? {
      OrderKeptIffSafe(step.op, s.server.docs);
    }
  }

  lemma {:induction false} OrderedIffSafe(s: System, steps: seq<Step>, maxRetry: int)
    requires Possible(s, steps, maxRetry) && Ordered(s.server.docs)
    ensures OrderedIn(s, steps, maxRetry) <==> SafeIn(s, steps, maxRetry)
    ensures SafeIn(s, steps, maxRetry) ==> NeverFallsIn(s, steps, maxRetry)
    decreases |steps|
  {
    hide Next, Enabled, Safe, Ordered;
    if steps == [] {
    } else {
      var t := Next(s, steps[0], maxRetry);
      StepOrderedIffSafe(s, steps[0], maxRetry);
      if Ordered(t.server.docs) {
        OrderedIffSafe(t, steps[1..], maxRetry);
      } else {
        assert !OrderedIn(t, steps[1..], maxRetry);
      }
    }
  }

  /** The allocator and the watermarks together, exactly: in any interleaved run, with every fault
      allowed, 0 <= min_seq <= max_seq <= issued_seq holds throughout if and only if every other use
      of the store met the guard of its operation; and then no step lowers any of the three. */
  lemma WatermarksHoldInEveryRun(steps: seq<Step>, maxRetry: int)
    requires Possible(INITIAL, steps, maxRetry)
    ensures OrderedIn(INITIAL, steps, maxRetry) <==> SafeIn(INITIAL, steps, maxRetry)
    ensures SafeIn(INITIAL, steps, maxRetry) ==> NeverFallsIn(INITIAL, steps, maxRetry)
  {
    OrderedIffSafe(INITIAL, steps, maxRetry);
  }

  ghost predicate HandedOut(s: System, v: int) {
    exists g :: 0 <= g < |s.server.granted| && s.server.granted[g].range.Has(v)
  }

  lemma {:induction false} SafeFloors(s: System, steps: seq<Step>, maxRetry: int)
    requires Possible(s, steps, maxRetry) && SafeIn(s, steps, maxRetry)
    ensures FloorsFromIn(s, steps, 0, maxRetry)
    decreases |steps|
  {
    if steps == [] {
    } else {
      SafeFloors(Next(s, steps[0], maxRetry), steps[1..], maxRetry);
    }
  }

  /** Committing a number that was handed out meets the guard, whenever that is done. */
  lemma CommitsOfIssuedNumbersAreSafe(steps: seq<Step>, maxRetry: int, v: int)
    requires Possible(INITIAL, steps, maxRetry) && SafeIn(INITIAL, steps, maxRetry)
    requires HandedOut(Run(INITIAL, steps, maxRetry), v)
    ensures var docs := Run(INITIAL, steps, maxRetry).server.docs;
      Safe(Commit(v), docs) && Safe(UpdateMax(v, false), docs) && Safe(UpdateMax(v, true), docs)
  {
    SafeFloors(INITIAL, steps, maxRetry);
    var b := RunKeeps(INITIAL, steps, maxRetry, Book(map[], 0, 0));
    var s := Run(INITIAL, steps, maxRetry);
    var g :| 0 <= g < |s.server.granted| && s.server.granted[g].range.Has(v);
    GivenRange(s, b, g);
  }

  // ---- runs, built one step at a time ----

  lemma {:induction false} Extend(s: System, steps: seq<Step>, step: Step, maxRetry: int)
    requires Possible(s, steps, maxRetry) && Enabled(Run(s, steps, maxRetry), step)
    ensures Possible(s, steps + [step], maxRetry)
    ensures Run(s, steps + [step], maxRetry) == Next(Run(s, steps, maxRetry), step, maxRetry)
    decreases |steps|
  {
    var longer := steps + [step];
    if steps == [] {
      assert longer == [step];
    } else {
      Extend(Next(s, steps[0], maxRetry), steps[1..], step, maxRetry);
      assert longer[1..] == steps[1..] + [step];
    }
  }

  /** A run that has reached state `s`. */
  ghost predicate Reaches(from: System, steps: seq<Step>, maxRetry: int, s: System) {
    Possible(from, steps, maxRetry) && Run(from, steps, maxRetry) == s
  }

  predicate Faultless(steps: seq<Step>) {
    forall i :: 0 <= i < |steps| ==> steps[i].Start? || steps[i].Answered?
  }

  lemma Go(from: System, steps: seq<Step>, step: Step, maxRetry: int, s: System)
      returns (longer: seq<Step>, t: System)
    requires Reaches(from, steps, maxRetry, s) && Enabled(s, step)
    ensures t == Next(s, step, maxRetry) && longer == steps + [step]
    ensures Reaches(from, longer, maxRetry, t)
    ensures Faultless(steps) && (step.Start? || step.Answered?) ==> Faultless(longer)
  {
    Extend(from, steps, step, maxRetry);
    longer, t := steps + [step], Next(s, step, maxRetry);
  }

  /** Call `j`, starting on an empty cache, gets as far as holding its segment. */
  lemma GoToSegment(from: System, steps: seq<Step>, j: nat, maxRetry: int, s: System)
      returns (longer: seq<Step>, t: System)
    requires Reaches(from, steps, maxRetry, s)
    requires maxRetry >= 1 && j !in s.calls && s.server.cell.None?
    ensures Reaches(from, longer, maxRetry, t) && (Faultless(steps) ==> Faultless(longer))
    ensures t.server.granted == s.server.granted && t.server.cell.None? && t.late == s.late
    ensures Issued(t.server.docs) == Issued(s.server.docs) + 256 && t.sent == s.sent
    ensures t.calls == s.calls[j := Call(1, 0,
        Installing(Issued(s.server.docs) + 1, Issued(s.server.docs) + 256))]
  {
    longer, t := Go(from, steps, Start(j, 1), maxRetry, s);
    longer, t := Go(from, longer, Answered(j, 256), maxRetry, t);
    longer, t := Go(from, longer, Answered(j, 256), maxRetry, t);
  }

  /** Call `j` stores its segment and issues from it. */
  lemma GoToResult(from: System, steps: seq<Step>, j: nat, maxRetry: int, s: System)
      returns (longer: seq<Step>, t: System)
    requires Reaches(from, steps, maxRetry, s)
    requires j in s.calls && s.calls[j].need == 1
    requires s.calls[j].pc.Installing? && s.calls[j].pc.start <= s.calls[j].pc.end
    ensures Reaches(from, longer, maxRetry, t) && (Faultless(steps) ==> Faultless(longer))
    ensures t.server.docs == s.server.docs && t.late == s.late && t.sent == s.sent
    ensures t.server.cell == Some(Cell(s.calls[j].pc.start, s.calls[j].pc.end))
    ensures t.calls == s.calls[j := s.calls[j].(pc := Done(s.calls[j].pc.start, |s.server.granted|))]
  {
    longer, t := Go(from, steps, Answered(j, 256), maxRetry, s);
    longer, t := Go(from, longer, Answered(j, 256), maxRetry, t);
  }

  /** A call that starts on a cached segment with room for it. */
  lemma GoFromCache(from: System, steps: seq<Step>, j: nat, maxRetry: int, s: System)
      returns (longer: seq<Step>, t: System)
    requires Reaches(from, steps, maxRetry, s)
    requires j !in s.calls && s.server.cell.Some? && s.server.cell.value.curr < s.server.cell.value.end
    ensures Reaches(from, longer, maxRetry, t) && (Faultless(steps) ==> Faultless(longer))
    ensures j in t.calls && t.calls[j].pc.Done?
    ensures t.calls[j].pc.start == s.server.cell.value.curr + 1
  {
    longer, t := Go(from, steps, Start(j, 1), maxRetry, s);
    longer, t := Go(from, longer, Answered(j, 256), maxRetry, t);
  }

  /** Calls that follow one another can still get smaller numbers when a third one overlaps both:
      call 0 holds segment 1..256 while call 1 takes 257; once call 0 has stored its segment over
      the newer one, call 2, begun after call 1 returned, gets 2. */
  lemma OverlapBreaksOrder(maxRetry: int) returns (before: seq<Step>, rest: seq<Step>)
    requires maxRetry >= 1
    ensures Possible(INITIAL, before, maxRetry)
    ensures var s := Run(INITIAL, before, maxRetry);
      && 1 in s.calls && s.calls[1].pc.Done? && s.calls[1].pc.start == 257 && 2 !in s.calls
      && Possible(s, rest, maxRetry)
      && var t := Run(s, rest, maxRetry);
      2 in t.calls && t.calls[2].pc.Done? && t.calls[2].pc.start == 2
    ensures Faultless(before) && Faultless(rest)
  {
    var s, t := INITIAL, INITIAL;
    before, s := GoToSegment(INITIAL, [], 0, maxRetry, s);
    before, s := GoToSegment(INITIAL, before, 1, maxRetry, s);
    before, s := GoToResult(INITIAL, before, 1, maxRetry, s);
    rest, t := GoToResult(s, [], 0, maxRetry, s);
    rest, t := GoFromCache(s, rest, 2, maxRetry, t);
  }

  /** Nor does order survive a late command, even with calls strictly one after the other: call 0
      gives up on storing 1..256, gets 257 from its next segment, and only then is 1..256 stored;
      the next call gets 1. */
  lemma LateCommandBreaksOrder(maxRetry: int) returns (before: seq<Step>, rest: seq<Step>)
    requires maxRetry >= 2
    ensures Possible(INITIAL, before, maxRetry)
    ensures var s := Run(INITIAL, before, maxRetry);
      && s.calls.Keys == {0} && s.calls[0].pc.Done? && s.calls[0].pc.start == 257
      && Enabled(s, LateRun(0))
      && var late := Next(s, LateRun(0), maxRetry);
      && Possible(late, rest, maxRetry) && Faultless(rest)
      && var t := Run(late, rest, maxRetry);
      1 in t.calls && t.calls[1].pc.Done? && t.calls[1].pc.start == 1
  {
    var s, t := INITIAL, INITIAL;
    before, s := GoToSegment(INITIAL, [], 0, maxRetry, s);
    before, s := Go(INITIAL, before, TimedOut(0, 256), maxRetry, s);
    before, s := Go(INITIAL, before, Answered(0, 256), maxRetry, s);
    assert s.calls[0].pc == Installing(257, 512) && s.late == map[0 := SetSegment(0, 256)];
    before, s := GoToResult(INITIAL, before, 0, maxRetry, s);
    var late := Next(s, LateRun(0), maxRetry);
    rest, t := GoFromCache(late, [], 1, maxRetry, late);
  }

  // ---- which floors are safe ----

  /** In every continuation that stores no negative floor while `issued_seq` is absent, every number
      received is at least 1. */
  ghost predicate NumbersStartAtOne(s: System, maxRetry: int) {
    forall rest, j ::
      Possible(s, rest, maxRetry) && FloorsFromIn(s, rest, 0, maxRetry)
      && j in Run(s, rest, maxRetry).calls && Run(s, rest, maxRetry).calls[j].pc.Done? ==>
        Run(s, rest, maxRetry).calls[j].pc.start >= 1
  }

  lemma StartsAtOne(s: System, maxRetry: int, b: Book)
    requires Inv(s, b) && b.low == 0
    ensures NumbersStartAtOne(s, maxRetry)
  {
    forall rest, j | Possible(s, rest, maxRetry) && FloorsFromIn(s, rest, 0, maxRetry)
        && j in Run(s, rest, maxRetry).calls && Run(s, rest, maxRetry).calls[j].pc.Done?
      ensures Run(s, rest, maxRetry).calls[j].pc.start >= 1
    {
      var after := RunKeeps(s, rest, maxRetry, b);
      ReceivedWithin(Run(s, rest, maxRetry), after, j);
    }
  }

  /** A floor stored where `issued_seq` was absent is the number before the next one given out. */
  lemma FloorIsServed(s: System, floor: int, j: nat, maxRetry: int) returns (rest: seq<Step>)
    requires !HasIssued(s.server.docs) && j !in s.calls && maxRetry >= 1
    ensures var t := Next(s, Store(RaiseFloor(floor)), maxRetry);
      && Possible(t, rest, maxRetry) && FloorsFromIn(t, rest, 0, maxRetry)
      && var u := Run(t, rest, maxRetry);
      j in u.calls && u.calls[j].pc.Done? && u.calls[j].pc.start == floor + 1
  {
    var t := Next(s, Store(RaiseFloor(floor)), maxRetry);
    var u: System;
    rest, u := Go(t, [], Expire, maxRetry, t);
    rest, u := GoToSegment(t, rest, j, maxRetry, u);
    rest, u := GoToResult(t, rest, j, maxRetry, u);
    FloorsNoMatter(t, rest, 0, maxRetry);
  }

  /** Exactly which floors are safe: after any run whose numbers start at 1, storing a floor keeps it
      so if and only if the floor is not negative or `issued_seq` is present. */
  lemma FloorSafeIff(steps: seq<Step>, floor: int, maxRetry: int)
    requires Possible(INITIAL, steps, maxRetry) && FloorsFromIn(INITIAL, steps, 0, maxRetry)
    requires maxRetry >= 1
    ensures var s := Run(INITIAL, steps, maxRetry);
      NumbersStartAtOne(Next(s, Store(RaiseFloor(floor)), maxRetry), maxRetry)
      <==> floor >= 0 || HasIssued(s.server.docs)
  {
    var s := Run(INITIAL, steps, maxRetry);
    var step := Store(RaiseFloor(floor));
    var t := Next(s, step, maxRetry);
    var b := RunKeeps(INITIAL, steps, maxRetry, Book(map[], 0, 0));
    if FloorsFrom(s, step, 0) {
      var after := StepKeeps(s, step, maxRetry, b);
      StartsAtOne(t, maxRetry, after);
    } else {
      var j := Above(s.calls.Keys);
      var rest := FloorIsServed(s, floor, j, maxRetry);
      assert !(Run(t, rest, maxRetry).calls[j].pc.start >= 1);
    }
  }
}
