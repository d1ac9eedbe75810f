// No sequence number is ever issued twice. The proof gives every allocated
// number one owner: the cache, a call that holds its segment, a late command, or
// the grant that handed it out. Ownership is a map, so nothing overlaps.
module SeqSafety {
  import opened Options
  import opened SeqConversation
  import opened SeqAllocator

  datatype Owner = Cached | HeldBy(j: nat) | Adrift(m: nat) | Given(g: nat)

  /** Who owns each number; all numbers allocated so far lie above `low`, up to `top`. */
  datatype Book = Book(owner: map<int, Owner>, low: int, top: int)

  ghost predicate Owns(b: Book, r: Range, who: Owner) {
    forall x :: r.Has(x) ==> b.low < x <= b.top && x in b.owner && b.owner[x] == who
  }

  /** The numbers of `r` change hands. */
  function Handover(owner: map<int, Owner>, r: Range, to: Owner): (after: map<int, Owner>)
    ensures forall x :: x in after <==> x in owner || r.Has(x)
    ensures forall x :: x in after ==> after[x] == if r.Has(x) then to else owner[x]
    decreases r.hi - r.lo
  {
    if r.lo > r.hi then owner else Handover(owner, Range(r.lo + 1, r.hi), to)[r.lo := to]
  }

  ghost predicate CellInv(cell: Option<Cell>, b: Book) {
    cell.Some? ==> Owns(b, Range(cell.value.curr + 1, cell.value.end), Cached)
  }

  ghost predicate CallInv(c: Call, j: nat, granted: seq<Grant>, b: Book) {
    && c.need >= 1
    && (c.pc.Installing? ==>
      c.pc.start <= c.pc.end && Owns(b, Range(c.pc.start, c.pc.end), HeldBy(j)))
    && (c.pc.Done? ==>
      c.pc.receipt < |granted| && granted[c.pc.receipt] == Grant(Some(j), c.Result()))
  }

  ghost predicate LateInv(cmd: Command, m: nat, b: Book) {
    && (cmd.InSegment? ==> cmd.need >= 1)
    && (cmd.SetSegment? ==>
      cmd.curr < cmd.end && Owns(b, Range(cmd.curr + 1, cmd.end), Adrift(m)))
  }

  ghost predicate GrantInv(r: Range, g: nat, b: Book) {
    r.lo <= r.hi && Owns(b, r, Given(g))
  }

  ghost predicate Inv(s: System, b: Book) {
    && b.low <= b.top == Top(s.server.docs, b.low)
    && b.low <= 0
    && CellInv(s.server.cell, b)
    && (forall j :: j in s.calls ==> CallInv(s.calls[j], j, s.server.granted, b))
    && (forall m :: m in s.late ==> m < s.sent && LateInv(s.late[m], m, b))
    && (forall g :: 0 <= g < |s.server.granted| ==> GrantInv(s.server.granted[g].range, g, b))
  }

  /** The highest number allocated so far; nothing has been while `issued_seq` is absent. */
  function Top(docs: Collection, low: int): int {
    if HasIssued(docs) then docs.doc.value.issued.value else low
  }

  /** A floor is stored as it is where `issued_seq` is absent; there, none below `low` is asked for. */
  predicate FloorsFrom(s: System, step: Step, low: int) {
    step.Store? && step.op.RaiseFloor? ==> step.op.floor >= low || HasIssued(s.server.docs)
  }

  predicate HasIssued(docs: Collection) {
    docs.doc.Some? && docs.doc.value.issued.Some?
  }

  predicate FloorsFromIn(s: System, steps: seq<Step>, low: int, maxRetry: int)
    requires Possible(s, steps, maxRetry)
    decreases |steps|
  {
    steps == [] ||
    (FloorsFrom(s, steps[0], low)
     && FloorsFromIn(Next(s, steps[0], maxRetry), steps[1..], low, maxRetry))
  }

  lemma GiveUpKeeps(s: System, j: nat, block: int, maxRetry: int, b: Book) returns (after: Book)
    requires j in s.calls && s.calls[j].Active() && Inv(s, b)
    ensures after.low == b.low && Inv(GiveUp(s, j, block, maxRetry), after)
  {
    var pc := s.calls[j].pc;
    var t := GiveUp(s, j, block, maxRetry);
    assert CallInv(s.calls[j], j, s.server.granted, b);
    after := b;
    if pc.Installing? {
      after := b.(owner := Handover(b.owner, Range(pc.start, pc.end), Adrift(s.sent)));
    }
  }

  /** Numbers that do not change hands stay where they are. */
  lemma OthersStay(b: Book, r: Range, to: Owner, q: Range, who: Owner)
    requires Owns(b, q, who) && forall x :: q.Has(x) ==> !r.Has(x)
    ensures Owns(b.(owner := Handover(b.owner, r, to)), q, who)
  {
  }

  lemma OwnersDisjoint(b: Book, r: Range, who: Owner, q: Range, other: Owner)
    requires Owns(b, r, who) && Owns(b, q, other) && who != other
    ensures forall x :: q.Has(x) ==> !r.Has(x)
  {
  }

  /** A range that leaves the cache disturbs no holder. */
  lemma HandoverKeeps(s: System, r: Range, to: Owner, b: Book) returns (after: Book)
    requires Inv(s, b) && Owns(b, r, Cached)
    ensures after == b.(owner := Handover(b.owner, r, to))
    ensures forall j :: j in s.calls ==> CallInv(s.calls[j], j, s.server.granted, after)
    ensures forall m :: m in s.late ==> LateInv(s.late[m], m, after)
    ensures forall g :: 0 <= g < |s.server.granted| ==>
      GrantInv(s.server.granted[g].range, g, after)
  {
    after := b.(owner := Handover(b.owner, r, to));
    hide Owns;
    forall j | j in s.calls ensures CallInv(s.calls[j], j, s.server.granted, after) {
      assert CallInv(s.calls[j], j, s.server.granted, b);
      if s.calls[j].pc.Installing? {
        var q := Range(s.calls[j].pc.start, s.calls[j].pc.end);
        OwnersDisjoint(b, r, Cached, q, HeldBy(j));
        OthersStay(b, r, to, q, HeldBy(j));
      }
    }
    forall m | m in s.late ensures LateInv(s.late[m], m, after) {
      assert LateInv(s.late[m], m, b);
      if s.late[m].SetSegment? {
        var q := Range(s.late[m].curr + 1, s.late[m].end);
        OwnersDisjoint(b, r, Cached, q, Adrift(m));
        OthersStay(b, r, to, q, Adrift(m));
      }
    }
    forall g | 0 <= g < |s.server.granted| ensures GrantInv(s.server.granted[g].range, g, after) {
      var q := s.server.granted[g].range;
      assert GrantInv(q, g, b);
      OwnersDisjoint(b, r, Cached, q, Given(g));
      OthersStay(b, r, to, q, Given(g));
    }
  }

  /** Issuing moves the front of the cached segment to a new grant. */
  lemma IssueKeeps(s: System, need: int, segEnd: int, taker: Option<nat>, b: Book)
      returns (after: Book)
    requires Inv(s, b) && need >= 1
    ensures after.low == b.low
    ensures Inv(s.(server := Exec(s.server, InSegment(need, segEnd), taker).0), after)
  {
    var g := |s.server.granted|;
    var server := Exec(s.server, InSegment(need, segEnd), taker).0;
    after := b;
    if |server.granted| > g {
      var cell := s.server.cell.value;
      var r := Range(cell.curr + 1, cell.curr + need);
      assert server.granted == s.server.granted + [Grant(taker, r)];
      var all, rest := Range(cell.curr + 1, cell.end), Range(cell.curr + need + 1, cell.end);
      assert Owns(b, all, Cached);
      assert forall x :: r.Has(x) || rest.Has(x) ==> all.Has(x);
      assert Owns(b, r, Cached) && Owns(b, rest, Cached);
      after := HandoverKeeps(s, r, Given(g), b);
      OthersStay(b, r, Given(g), rest, Cached);
      assert Owns(after, r, Given(g));
      hide Owns, Handover;
      assert CellInv(server.cell, after);
    }
  }

  /** A new segment lies above everything allocated before. */
  lemma AllocKeeps(s: System, block: int, holder: Owner, b: Book) returns (after: Book)
    requires Inv(s, b)
    ensures after.low == b.low
    ensures var server := Exec(s.server, AllocSegment(block), None).0;
      && Inv(s.(server := server), after)
      && Owns(after, Range(Issued(s.server.docs) + 1, Issued(server.docs)), holder)
  {
    var docs := Apply(Alloc(block), s.server.docs);
    var added := Range(Issued(s.server.docs) + 1, Issued(docs));
    after := Book(Handover(b.owner, added, holder), b.low, Top(docs, b.low));
  }

  /** Storing a segment moves it from its holder, who must not keep it, to the cache. */
  lemma InstallKeeps(s: System, curr: int, end: int, holder: Owner, b: Book) returns (after: Book)
    requires Inv(s, b)
    requires Owns(b, Range(curr + 1, end), holder)
    requires holder.HeldBy? || holder.Adrift?
    requires holder.HeldBy? ==> holder.j in s.calls ==> !s.calls[holder.j].pc.Installing?
    requires holder.Adrift? ==> holder.m !in s.late
    ensures after.low == b.low
    ensures Inv(s.(server := Exec(s.server, SetSegment(curr, end), None).0), after)
  {
    after := b.(owner := Handover(b.owner, Range(curr + 1, end), Cached));
  }

  lemma RunLateKeeps(s: System, m: nat, b: Book) returns (after: Book)
    requires m in s.late && Inv(s, b)
    ensures after.low == b.low && Inv(RunLate(s, m), after)
  {
    assert LateInv(s.late[m], m, b);
    var rest := s.(late := s.late - {m});
    match s.late[m]
    case AllocSegment(block) => after := AllocKeeps(rest, block, Adrift(m), b);
    case SetSegment(curr, end) => after := InstallKeeps(rest, curr, end, Adrift(m), b);
    case InSegment(need, segEnd) => after := IssueKeeps(rest, need, segEnd, None, b);
  }

  lemma AnswerKeeps(s: System, j: nat, block: int, maxRetry: int, b: Book) returns (after: Book)
    requires j in s.calls && s.calls[j].Active() && Inv(s, b)
    ensures after.low == b.low && Inv(Answer(s, j, block, maxRetry), after)
  {
    assert CallInv(s.calls[j], j, s.server.granted, b);
    match s.calls[j].pc
    case Allocating => after := AllocKeeps(s, block, HeldBy(j), b);
    case Installing(start, end) =>
      var t := s.(calls := s.calls[j := s.calls[j].(pc := Issuing(end))]);
      after := InstallKeeps(t, start - 1, end, HeldBy(j), b);
    case Trying => after := IssueKeeps(s, s.calls[j].need, 0, Some(j), b);
    case Issuing(segEnd) => after := IssueKeeps(s, s.calls[j].need, segEnd, Some(j), b);
  }

  lemma StepKeeps(s: System, step: Step, maxRetry: int, b: Book) returns (after: Book)
    requires Enabled(s, step) && FloorsFrom(s, step, b.low) && Inv(s, b)
    ensures after.low == b.low && Inv(Next(s, step, maxRetry), after)
  {
    match step
    case Start(_, _) => after := b;
    case Answered(j, block) => after := AnswerKeeps(s, j, block, maxRetry, b);
    case Lost(j, block) =>
      after := GiveUpKeeps(s, j, block, maxRetry, b);
      after := RunLateKeeps(GiveUp(s, j, block, maxRetry), s.sent, after);
    case TimedOut(j, block) => after := GiveUpKeeps(s, j, block, maxRetry, b);
    case LateRun(m) => after := RunLateKeeps(s, m, b);
    case Expire => after := b;
    case Store(op) => after := b.(top := Top(Apply(op, s.server.docs), b.low));
  }

  lemma {:induction false} RunKeeps(s: System, steps: seq<Step>, maxRetry: int, b: Book)
      returns (after: Book)
    requires Possible(s, steps, maxRetry) && Inv(s, b)
    requires FloorsFromIn(s, steps, b.low, maxRetry)
    ensures after.low == b.low && Inv(Run(s, steps, maxRetry), after)
    decreases |steps|
  {
    after := b;
    if steps == [] {
    } else {
      after := StepKeeps(s, steps[0], maxRetry, b);
      after := RunKeeps(Next(s, steps[0], maxRetry), steps[1..], maxRetry, after);
    }
  }

  /** The lowest floor stored where `issued_seq` was absent, or 0 if none was below that. */
  function LowestFloor(s: System, steps: seq<Step>, maxRetry: int): (low: int)
    requires Possible(s, steps, maxRetry)
    ensures low <= 0
    ensures forall below :: below <= low ==> FloorsFromIn(s, steps, below, maxRetry)
    ensures FloorsFromIn(s, steps, 0, maxRetry) ==> low == 0
    decreases |steps|
  {
    if steps == [] then 0
    else
      var low := LowestFloor(Next(s, steps[0], maxRetry), steps[1..], maxRetry);
      if FloorsFrom(s, steps[0], low) then low else steps[0].op.floor
  }

  // ---- what was asked for ----

  lemma {:induction false} NeedStays(s: System, steps: seq<Step>, maxRetry: int, j: nat)
    requires Possible(s, steps, maxRetry) && j in s.calls
    ensures var t := Run(s, steps, maxRetry); j in t.calls && t.calls[j].need == s.calls[j].need
    decreases |steps|
  {
    if steps == [] {
    } else {
      NeedStays(Next(s, steps[0], maxRetry), steps[1..], maxRetry, j);
    }
  }

  /** A call that asked for `want` numbers needs that many, and one if it asked for none or fewer. */
  lemma {:induction false} NeedIsWant(s: System, steps: seq<Step>, maxRetry: int, j: nat, want: int)
    requires Possible(s, steps, maxRetry) && Start(j, want) in steps
    ensures var t := Run(s, steps, maxRetry);
      j in t.calls && t.calls[j].need == if want <= 0 then 1 else want
    decreases |steps|
  {
    var t := Next(s, steps[0], maxRetry);
    if steps[0] == Start(j, want) {
      NeedStays(t, steps[1..], maxRetry, j);
    } else {
      assert Start(j, want) in steps[1..];
      NeedIsWant(t, steps[1..], maxRetry, j, want);
    }
  }

  /** Every call of a run was begun by some step of it. */
  lemma {:induction false} WasStarted(s: System, steps: seq<Step>, maxRetry: int, j: nat)
      returns (want: int)
    requires Possible(s, steps, maxRetry)
    requires j !in s.calls && j in Run(s, steps, maxRetry).calls
    ensures Start(j, want) in steps
    decreases |steps|
  {
    if steps[0].Start? && steps[0].j == j {
      want := steps[0].need;
    } else {
      want := WasStarted(Next(s, steps[0], maxRetry), steps[1..], maxRetry, j);
    }
  }

  lemma ReceivedIsGranted(s: System, b: Book, j: nat)
    requires Inv(s, b) && j in s.calls && s.calls[j].pc.Done?
    ensures var c := s.calls[j];
      c.pc.receipt < |s.server.granted|
      && s.server.granted[c.pc.receipt]
           == Grant(Some(j), Range(c.pc.start, c.pc.start + c.need - 1))
  {
    assert CallInv(s.calls[j], j, s.server.granted, b);
  }

  /** What a finished call was handed is as many numbers as it asked for, from its result on. */
  lemma GrantedAsAsked(steps: seq<Step>, maxRetry: int, j: nat, want: int)
    requires Possible(INITIAL, steps, maxRetry) && Start(j, want) in steps
    requires j in Run(INITIAL, steps, maxRetry).calls
    requires Run(INITIAL, steps, maxRetry).calls[j].pc.Done?
    ensures var s := Run(INITIAL, steps, maxRetry);
      var pc := s.calls[j].pc;
      pc.receipt < |s.server.granted|
      && s.server.granted[pc.receipt]
           == Grant(Some(j), Range(pc.start, pc.start + (if want <= 0 then 1 else want) - 1))
  {
    var low := LowestFloor(INITIAL, steps, maxRetry);
    var b := RunKeeps(INITIAL, steps, maxRetry, Book(map[], low, low));
    NeedIsWant(INITIAL, steps, maxRetry, j, want);
    ReceivedIsGranted(Run(INITIAL, steps, maxRetry), b, j);
  }

  /** Uniqueness over whole runs: whatever the interleaving, the expiries, the lost replies, the
      late commands and the floors, two calls never receive a common number; each receives as many
      numbers as it asked for. */
  lemma NothingIssuedTwice(steps: seq<Step>, maxRetry: int, i: nat, m: int, j: nat, n: int)
    requires Possible(INITIAL, steps, maxRetry)
    requires Start(i, m) in steps && Start(j, n) in steps && i != j
    requires var s := Run(INITIAL, steps, maxRetry);
      i in s.calls && j in s.calls && s.calls[i].pc.Done? && s.calls[j].pc.Done?
    ensures var s := Run(INITIAL, steps, maxRetry);
      var x, y := s.calls[i].pc.start, s.calls[j].pc.start;
      Range(x, x + (if m <= 0 then 1 else m) - 1).Disjoint(
        Range(y, y + (if n <= 0 then 1 else n) - 1))
  {
    var low := LowestFloor(INITIAL, steps, maxRetry);
    var b := RunKeeps(INITIAL, steps, maxRetry, Book(map[], low, low));
    var s := Run(INITIAL, steps, maxRetry);
    NeedIsWant(INITIAL, steps, maxRetry, i, m);
    NeedIsWant(INITIAL, steps, maxRetry, j, n);
    var r, q := s.calls[i].Result(), s.calls[j].Result();
    ReceivedIsGranted(s, b, i);
    ReceivedIsGranted(s, b, j);
    GivenRange(s, b, s.calls[i].pc.receipt);
    GivenRange(s, b, s.calls[j].pc.receipt);
    var x := if r.lo <= q.lo then q.lo else r.lo;
    assert r.Disjoint(q) || (r.Has(x) && q.Has(x));
  }

  /** Every range received is at most issued_seq and above the lowest floor stored while
      `issued_seq` was absent; so it starts at 1 or more when no such floor was negative. */
  lemma IssuedWithin(steps: seq<Step>, maxRetry: int, i: nat, want: int)
    requires Possible(INITIAL, steps, maxRetry) && Start(i, want) in steps
    requires var s := Run(INITIAL, steps, maxRetry); i in s.calls && s.calls[i].pc.Done?
    ensures var s := Run(INITIAL, steps, maxRetry);
      var start := s.calls[i].pc.start;
      && LowestFloor(INITIAL, steps, maxRetry) < start
      && start + (if want <= 0 then 1 else want) - 1 <= Issued(s.server.docs)
      && (FloorsFromIn(INITIAL, steps, 0, maxRetry) ==> start >= 1)
  {
    var low := LowestFloor(INITIAL, steps, maxRetry);
    var b := RunKeeps(INITIAL, steps, maxRetry, Book(map[], low, low));
    NeedIsWant(INITIAL, steps, maxRetry, i, want);
    ReceivedWithin(Run(INITIAL, steps, maxRetry), b, i);
  }

  lemma ReceivedWithin(s: System, b: Book, i: nat)
    requires Inv(s, b) && i in s.calls && s.calls[i].pc.Done?
    ensures var r := s.calls[i].Result(); b.low < r.lo <= r.hi <= Issued(s.server.docs)
  {
    var r := s.calls[i].Result();
    assert CallInv(s.calls[i], i, s.server.granted, b);
    GivenRange(s, b, s.calls[i].pc.receipt);
    assert r.Has(r.lo) && r.Has(r.hi);
  }

  lemma GivenRange(s: System, b: Book, g: nat)
    requires Inv(s, b) && g < |s.server.granted|
    ensures var r := s.server.granted[g].range; r.lo <= r.hi && Owns(b, r, Given(g))
  {
    assert GrantInv(s.server.granted[g].range, g, b);
  }
}
