// What one Malloc call achieves, alone and among others, and how it sits inside
// the system of all calls.
module SeqProgress {
  import opened Options
  import opened SeqConversation
  import opened SeqAllocator
  import opened SeqMalloc

  // ---- the driven call is a run ----

  lemma {:induction false} RunAppend(s: System, first: seq<Step>, then': seq<Step>, maxRetry: int)
    requires Possible(s, first, maxRetry) && Possible(Run(s, first, maxRetry), then', maxRetry)
    ensures Possible(s, first + then', maxRetry)
    ensures Run(s, first + then', maxRetry) == Run(Run(s, first, maxRetry), then', maxRetry)
    decreases |first|
  {
    var all := first + then';
    if first == [] {
      assert all == then';
    } else {
      RunAppend(Next(s, first[0], maxRetry), first[1..], then', maxRetry);
      assert all[1..] == first[1..] + then';
    }
  }

  lemma {:induction false} MeanwhileIsARun(s: System, others: seq<Step>, j: nat, maxRetry: int)
      returns (steps: seq<Step>)
    ensures Possible(s, steps, maxRetry) && Run(s, steps, maxRetry) == Meanwhile(s, others, j, maxRetry)
    decreases |others|
  {
    if others == [] {
      steps := [];
    } else if Enabled(s, others[0]) && !StepOf(j, others[0]) {
      var rest := MeanwhileIsARun(Next(s, others[0], maxRetry), others[1..], j, maxRetry);
      steps := [others[0]] + rest;
      assert steps[1..] == rest;
    } else {
      steps := MeanwhileIsARun(s, others[1..], j, maxRetry);
    }
  }

  lemma OneStep(s: System, step: Step, maxRetry: int)
    requires Enabled(s, step)
    ensures Possible(s, [step], maxRetry) && Run(s, [step], maxRetry) == Next(s, step, maxRetry)
  {
    assert [step][1..] == [];
    assert Run(Next(s, step, maxRetry), [], maxRetry) == Next(s, step, maxRetry);
  }

  /** Whatever the others do in between and whatever faults it meets, the driven call is a run of the
      system; so what holds in every run holds of the program's loop. */
  lemma {:induction false} DriveIsARun(s: System, j: nat, turns: seq<Turn>, n: nat, block: int,
                                       maxRetry: int)
      returns (steps: seq<Step>)
    requires j in s.calls
    ensures Possible(s, steps, maxRetry)
    ensures Run(s, steps, maxRetry) == Drive(s, j, turns, n, block, maxRetry)
    decreases s.calls[j].pc.Trying?, RoundsLeft(s.calls[j], maxRetry), Order(s.calls[j].pc)
  {
    if !s.calls[j].Active() {
      steps := [];
    } else {
      var turn := TurnAt(turns, n);
      var u := Meanwhile(s, turn.others, j, maxRetry);
      var step := StepFor(j, block, turn.fate);
      var t := TakeTurn(s, j, turn, block, maxRetry);
      var rest := DriveIsARun(t, j, turns, n + 1, block, maxRetry);
      hide *;
      var first := MeanwhileIsARun(s, turn.others, j, maxRetry);
      OneStep(u, step, maxRetry);
      RunAppend(s, first, [step], maxRetry);
      RunAppend(s, first + [step], rest, maxRetry);
      DriveStep(s, j, turns, n, block, maxRetry);
      steps := first + [step] + rest;
    }
  }

  // ---- contention ----

  predicate Faultless(turns: seq<Turn>) {
    forall n :: 0 <= n < |turns| ==> turns[n].fate == Arrives
  }

  /** The issuing script will refuse the call on the cell the others have left. */
  predicate Refused(s: System, j: nat, turn: Turn, maxRetry: int)
    requires j in s.calls
  {
    && s.calls[j].pc.Issuing?
    && var cell := Meanwhile(s, turn.others, j, maxRetry).server.cell;
       !IssueReply(cell, s.calls[j].need, s.calls[j].pc.segEnd).Started?
  }

  /** In how many of its rounds the call is refused. */
  function Refusals(s: System, j: nat, turns: seq<Turn>, n: nat, block: int, maxRetry: int): nat
    requires j in s.calls
    decreases s.calls[j].pc.Trying?, RoundsLeft(s.calls[j], maxRetry), Order(s.calls[j].pc)
  {
    if !s.calls[j].Active() then 0
    else
      var rest := Refusals(TakeTurn(s, j, TurnAt(turns, n), block, maxRetry), j, turns, n + 1,
                           block, maxRetry);
      if Refused(s, j, TurnAt(turns, n), maxRetry) then rest + 1 else rest
  }

  /** Where a call without faults can stand. */
  predicate OnCourse(c: Call, maxRetry: int) {
    match c.pc
    case Trying => c.tries == 0 && maxRetry >= 1
    case Failed => c.tries == maxRetry
    case _ => c.tries < maxRetry
  }

  /** One faultless turn: a refusal, and nothing else, uses up a round. */
  lemma TurnKeepsCourse(s: System, j: nat, turn: Turn, block: int, maxRetry: int)
    requires j in s.calls && s.calls[j].Active() && turn.fate == Arrives
    requires OnCourse(s.calls[j], maxRetry)
    ensures var c := TakeTurn(s, j, turn, block, maxRetry).calls[j];
      && OnCourse(c, maxRetry)
      && c.tries == s.calls[j].tries + if Refused(s, j, turn, maxRetry) then 1 else 0
  {
  }

  lemma {:induction false} RefusalsUseUpRounds(s: System, j: nat, turns: seq<Turn>, n: nat,
                                               block: int, maxRetry: int)
    requires j in s.calls && Faultless(turns) && OnCourse(s.calls[j], maxRetry)
    ensures var c := Drive(s, j, turns, n, block, maxRetry).calls[j];
      && OnCourse(c, maxRetry)
      && c.tries == s.calls[j].tries + Refusals(s, j, turns, n, block, maxRetry)
    decreases s.calls[j].pc.Trying?, RoundsLeft(s.calls[j], maxRetry), Order(s.calls[j].pc)
  {
    hide TakeTurn, Refused, OnCourse;
    if !s.calls[j].Active() {
    } else {
      var turn := TurnAt(turns, n);
      TurnKeepsCourse(s, j, turn, block, maxRetry);
      TurnGoesOn(s, j, turn, block, maxRetry);
      RefusalsUseUpRounds(TakeTurn(s, j, turn, block, maxRetry), j, turns, n + 1, block, maxRetry);
    }
  }

  /** Every turn brings the call closer to its end. */
  lemma TurnGoesOn(s: System, j: nat, turn: Turn, block: int, maxRetry: int)
    requires j in s.calls && s.calls[j].Active()
    ensures var c, d := s.calls[j], TakeTurn(s, j, turn, block, maxRetry).calls[j];
      && !d.pc.Trying?
      && (c.pc.Trying? || RoundsLeft(d, maxRetry) < RoundsLeft(c, maxRetry)
          || (RoundsLeft(d, maxRetry) == RoundsLeft(c, maxRetry) && Order(d.pc) < Order(c.pc)))
  {
  }

  /** Failure among others, exactly: for any block size, a call without faults of its own that may
      retry fails if and only if in every one of its MaxRetry rounds the issuing script refuses it on
      the cell the others have left. */
  lemma FailsIffAlwaysRefused(s: System, want: int, j: nat, turns: seq<Turn>, block: int,
                              maxRetry: int)
    requires j in s.calls && s.calls[j] == Call(if want <= 0 then 1 else want, 0, Trying)
    requires Faultless(turns) && maxRetry >= 1
    ensures Refusals(s, j, turns, 0, block, maxRetry) <= maxRetry
    ensures Drive(s, j, turns, 0, block, maxRetry).calls[j].pc.Failed?
      <==> Refusals(s, j, turns, 0, block, maxRetry) == maxRetry
  {
    RefusalsUseUpRounds(s, j, turns, 0, block, maxRetry);
  }

  /** How many times the others changed the cached segment between the call's storing one and its
      issuing from it. */
  function Disturbances(s: System, j: nat, turns: seq<Turn>, n: nat, block: int, maxRetry: int): nat
    requires j in s.calls
    decreases s.calls[j].pc.Trying?, RoundsLeft(s.calls[j], maxRetry), Order(s.calls[j].pc)
  {
    if !s.calls[j].Active() then 0
    else
      var rest := Disturbances(TakeTurn(s, j, TurnAt(turns, n), block, maxRetry), j, turns, n + 1,
                               block, maxRetry);
      if Disturbed(s, j, TurnAt(turns, n), maxRetry) then rest + 1 else rest
  }

  predicate Disturbed(s: System, j: nat, turn: Turn, maxRetry: int)
    requires j in s.calls
  {
    s.calls[j].pc.Issuing?
    && Meanwhile(s, turn.others, j, maxRetry).server.cell != s.server.cell
  }

  /** Between its own commands the call holds, or has just cached, a segment that covers it. */
  predicate Covered(s: System, j: nat)
    requires j in s.calls
  {
    var c := s.calls[j];
    match c.pc
    case Installing(start, end) => start - 1 + c.need <= end
    case Issuing(segEnd) =>
      s.server.cell.Some? && s.server.cell.value.end == segEnd
      && s.server.cell.value.curr + c.need <= segEnd
    case _ => true
  }

  /** One faultless turn: the cover is kept, and an undisturbed issue succeeds. */
  lemma TurnKeepsCover(s: System, j: nat, turn: Turn, block: int, maxRetry: int)
    requires j in s.calls && s.calls[j].Active() && turn.fate == Arrives && Covered(s, j)
    requires BlockSize(block) >= s.calls[j].need
    ensures var t := TakeTurn(s, j, turn, block, maxRetry);
      && Covered(t, j) && t.calls[j].need == s.calls[j].need
      && (t.calls[j].pc.Failed? || t.calls[j].pc.Allocating? ==>
            s.calls[j].pc.Trying? || Disturbed(s, j, turn, maxRetry))
  {
  }

  /** Each remaining round holds at most one disturbance, and each of a failing call holds one. */
  lemma {:induction false} FailsOnlyWhenDisturbed(s: System, j: nat, turns: seq<Turn>, n: nat,
                                                  block: int, maxRetry: int)
    requires j in s.calls && Covered(s, j) && Faultless(turns)
    requires BlockSize(block) >= s.calls[j].need && s.calls[j].tries <= maxRetry
    requires s.calls[j].pc.Trying? ==> s.calls[j].tries == 0
    requires s.calls[j].pc.Failed? ==> s.calls[j].tries == maxRetry
    requires s.calls[j].Active() && !s.calls[j].pc.Trying? ==> s.calls[j].tries < maxRetry
    ensures Disturbances(s, j, turns, n, block, maxRetry) <= maxRetry - s.calls[j].tries
    ensures Drive(s, j, turns, n, block, maxRetry).calls[j].pc.Failed? ==>
      Disturbances(s, j, turns, n, block, maxRetry) == maxRetry - s.calls[j].tries
    decreases s.calls[j].pc.Trying?, RoundsLeft(s.calls[j], maxRetry), Order(s.calls[j].pc)
  {
    if !s.calls[j].Active() {
    } else {
      var turn := TurnAt(turns, n);
      TurnKeepsCover(s, j, turn, block, maxRetry);
      FailsOnlyWhenDisturbed(TakeTurn(s, j, turn, block, maxRetry), j, turns, n + 1, block, maxRetry);
    }
  }

  /** Progress among others: without faults of its own, and with a block that covers the request, a
      call fails only if in every one of its MaxRetry rounds the others changed the cached segment
      between the call's storing it and its issuing from it. */
  lemma ContendedCall(s: System, want: int, j: nat, turns: seq<Turn>, block: int, maxRetry: nat)
    requires j in s.calls && s.calls[j] == Call(if want <= 0 then 1 else want, 0, Trying)
    requires Faultless(turns)
    requires BlockSize(block) >= (if want <= 0 then 1 else want)
    ensures Disturbances(s, j, turns, 0, block, maxRetry) <= maxRetry
    ensures Drive(s, j, turns, 0, block, maxRetry).calls[j].pc.Failed? ==>
      Disturbances(s, j, turns, 0, block, maxRetry) == maxRetry
  {
    FailsOnlyWhenDisturbed(s, j, turns, 0, block, maxRetry);
  }

  // ---- alone ----

  /** The cached segment has room for the request. */
  predicate Fits(s: Server, need: int) {
    s.cell.Some? && s.cell.value.curr + need <= s.cell.value.end
  }

  /** A turn in which nobody else moves and the reply arrives. */
  const QUIET := Turn([], Arrives)

  lemma QuietTurn(s: System, j: nat, n: nat, block: int, maxRetry: int)
    requires j in s.calls && s.calls[j].Active()
    ensures TurnAt([], n) == QUIET
    ensures TakeTurn(s, j, QUIET, block, maxRetry) == Answer(s, j, block, maxRetry)
    ensures Drive(s, j, [], n, block, maxRetry)
      == Drive(Answer(s, j, block, maxRetry), j, [], n + 1, block, maxRetry)
  {
    DriveStep(s, j, [], n, block, maxRetry);
  }

  /** From the loop head with a block that is large enough: one segment, and success inside it. */
  lemma RoundSucceeds(s: System, j: nat, n: nat, block: int, maxRetry: int)
    requires j in s.calls && s.calls[j].pc == Allocating
    requires s.calls[j].need >= 1 && BlockSize(block) >= s.calls[j].need
    ensures var t := Drive(s, j, [], n, block, maxRetry);
      && t.server.docs == Apply(Alloc(block), s.server.docs)
      && t.calls[j].pc.Done? && t.calls[j].pc.start == Issued(s.server.docs) + 1
  {
    hide Drive;
    var s1 := Answer(s, j, block, maxRetry);
    var s2 := Answer(s1, j, block, maxRetry);
    QuietTurn(s, j, n, block, maxRetry);
    QuietTurn(s1, j, n + 1, block, maxRetry);
    QuietTurn(s2, j, n + 2, block, maxRetry);
    DriveStep(Answer(s2, j, block, maxRetry), j, [], n + 3, block, maxRetry);
  }

  /** One round with a block that is too small: a segment is spent and the next round begins. */
  lemma RoundFails(s: System, j: nat, n: nat, block: int, maxRetry: int) returns (t: System)
    requires j in s.calls && s.calls[j].pc == Allocating && s.calls[j].need > BlockSize(block)
    ensures Issued(t.server.docs) == Issued(s.server.docs) + BlockSize(block)
    ensures j in t.calls && t.calls[j] == Round(s.calls[j], s.calls[j].tries + 1, maxRetry)
    ensures Drive(s, j, [], n, block, maxRetry) == Drive(t, j, [], n + 3, block, maxRetry)
  {
    hide Drive;
    var s1 := Answer(s, j, block, maxRetry);
    var s2 := Answer(s1, j, block, maxRetry);
    QuietTurn(s, j, n, block, maxRetry);
    QuietTurn(s1, j, n + 1, block, maxRetry);
    QuietTurn(s2, j, n + 2, block, maxRetry);
    t := Answer(s2, j, block, maxRetry);
  }

  lemma OneMore(k: int, b: int)
    ensures b + (k - 1) * b == k * b
  {
  }

  /** A block that is too small spends every remaining round and then fails. */
  lemma {:induction false} RoundsRunOut(s: System, j: nat, n: nat, block: int, maxRetry: int)
    requires j in s.calls && s.calls[j].pc == Allocating
    requires s.calls[j].need > BlockSize(block) && s.calls[j].tries < maxRetry
    ensures var t := Drive(s, j, [], n, block, maxRetry);
      && t.calls[j].pc == Failed
      && Issued(t.server.docs)
           == Issued(s.server.docs) + (maxRetry - s.calls[j].tries) * BlockSize(block)
    decreases maxRetry - s.calls[j].tries
  {
    hide Drive, BlockSize;
    var t := RoundFails(s, j, n, block, maxRetry);
    OneMore(maxRetry - s.calls[j].tries, BlockSize(block));
    if s.calls[j].tries + 1 < maxRetry {
      RoundsRunOut(t, j, n + 3, block, maxRetry);
    } else {
      DriveStep(t, j, [], n + 3, block, maxRetry);
    }
  }

  /** Progress, exactly: a call without faults or interference succeeds if and only if the cached
      segment has room, or it may retry and the block covers the request. It takes no segment in
      the first case, one in the second, and otherwise fails after MaxRetry of them. */
  lemma LoneCall(s: System, want: int, j: nat, block: int, maxRetry: int)
    requires j in s.calls && s.calls[j] == Call(if want <= 0 then 1 else want, 0, Trying)
    ensures var need := if want <= 0 then 1 else want;
      var t := Drive(s, j, [], 0, block, maxRetry);
      var pc := t.calls[j].pc;
      && (pc.Done? <==> Fits(s.server, need) || (maxRetry >= 1 && BlockSize(block) >= need))
      && (Fits(s.server, need) ==>
            t.server.docs == s.server.docs && pc.start == s.server.cell.value.curr + 1)
      && (pc.Done? && !Fits(s.server, need) ==>
            && t.server.docs == Apply(Alloc(block), s.server.docs)
            && pc.start == Issued(s.server.docs) + 1
            && pc.start + need - 1 <= Issued(t.server.docs))
      && (!pc.Done? ==>
            Issued(t.server.docs)
              == Issued(s.server.docs) + (if maxRetry < 0 then 0 else maxRetry) * BlockSize(block))
  {
    hide Drive, BlockSize;
    var s1 := Answer(s, j, block, maxRetry);
    QuietTurn(s, j, 0, block, maxRetry);
    if !s1.calls[j].pc.Allocating? {
      DriveStep(s1, j, [], 1, block, maxRetry);
    } else if BlockSize(block) >= s.calls[j].need {
      RoundSucceeds(s1, j, 1, block, maxRetry);
    } else {
      RoundsRunOut(s1, j, 1, block, maxRetry);
    }
  }

  /** With the default block and any positive number of retries a lone call always succeeds. */
  lemma DefaultBlockSuffices(s: System, want: int, j: nat, maxRetry: int)
    requires j in s.calls && s.calls[j] == Call(if want <= 0 then 1 else want, 0, Trying)
    requires maxRetry >= 1
    ensures Drive(s, j, [], 0, DefaultBlock(if want <= 0 then 1 else want), maxRetry).calls[j].pc.Done?
  {
    LoneCall(s, want, j, DefaultBlock(if want <= 0 then 1 else want), maxRetry);
  }
}
