// One Malloc call as the program runs it: the retry loop over a backend that other
// parties use between any two of its commands and whose commands may fail, shown
// to follow the call automaton of SeqAllocator.
module SeqMalloc {
  import opened Options
  import opened SeqConversation
  import opened SeqAllocator

  /** What becomes of one command: the reply arrives; the command runs but the caller sees an
      error; the caller sees an error before the command has run. */
  datatype Fate = Arrives | ReplyLost | NotRun

  /** What the others do before a command of the call, and what becomes of that command. */
  datatype Turn = Turn(others: seq<Step>, fate: Fate)

  function TurnAt(turns: seq<Turn>, n: nat): Turn {
    if n < |turns| then turns[n] else Turn([], Arrives)
  }

  predicate StepOf(j: nat, step: Step) {
    match step
    case Start(i, _) => i == j
    case Answered(i, _) => i == j
    case Lost(i, _) => i == j
    case TimedOut(i, _) => i == j
    case _ => false
  }

  /** The others take those of the given steps that are theirs and possible. */
  function Meanwhile(s: System, others: seq<Step>, j: nat, maxRetry: int): (t: System)
    ensures j in s.calls ==> j in t.calls && t.calls[j] == s.calls[j]
    decreases |others|
  {
    if others == [] then s
    else if Enabled(s, others[0]) && !StepOf(j, others[0])
    then Meanwhile(Next(s, others[0], maxRetry), others[1..], j, maxRetry)
    else Meanwhile(s, others[1..], j, maxRetry)
  }

  function StepFor(j: nat, block: int, fate: Fate): Step {
    match fate
    case Arrives => Answered(j, block)
    case ReplyLost => Lost(j, block)
    case NotRun => TimedOut(j, block)
  }

  /** The next turn of call `j`. */
  function TakeTurn(s: System, j: nat, turn: Turn, block: int, maxRetry: int): (t: System)
    requires j in s.calls && s.calls[j].Active()
    ensures j in t.calls
  {
    Next(Meanwhile(s, turn.others, j, maxRetry), StepFor(j, block, turn.fate), maxRetry)
  }

  function Order(pc: Pc): nat {
    match pc
    case Trying => 4
    case Allocating => 3
    case Installing(_, _) => 2
    case Issuing(_) => 1
    case _ => 0
  }

  function RoundsLeft(c: Call, maxRetry: int): nat {
    if c.tries < maxRetry then maxRetry - c.tries else 0
  }

  /** Call `j` run to its end, turn by turn; command `n` is next. */
  function Drive(s: System, j: nat, turns: seq<Turn>, n: nat, block: int, maxRetry: int)
      : (t: System)
    requires j in s.calls
    ensures j in t.calls && !t.calls[j].Active()
    decreases s.calls[j].pc.Trying?, RoundsLeft(s.calls[j], maxRetry), Order(s.calls[j].pc)
  {
    if !s.calls[j].Active() then s
    else Drive(TakeTurn(s, j, TurnAt(turns, n), block, maxRetry), j, turns, n + 1, block, maxRetry)
  }

  lemma DriveStep(s: System, j: nat, turns: seq<Turn>, n: nat, block: int, maxRetry: int)
    requires j in s.calls
    ensures !s.calls[j].Active() ==> Drive(s, j, turns, n, block, maxRetry) == s
    ensures s.calls[j].Active() ==>
      Drive(s, j, turns, n, block, maxRetry)
        == Drive(TakeTurn(s, j, TurnAt(turns, n), block, maxRetry), j, turns, n + 1, block, maxRetry)
  {
  }

  /** If call `j` is done, what it was handed is on record under its name. */
  predicate OnRecord(s: System, j: nat)
    requires j in s.calls
  {
    var c := s.calls[j];
    c.pc.Done? ==>
      c.pc.receipt < |s.server.granted|
      && s.server.granted[c.pc.receipt] == Grant(Some(j), Range(c.pc.start, c.pc.start + c.need - 1))
  }

  lemma {:induction false} MeanwhileGrows(s: System, others: seq<Step>, j: nat, maxRetry: int)
    ensures s.server.granted <= Meanwhile(s, others, j, maxRetry).server.granted
    decreases |others|
  {
    if others == [] {
    } else if Enabled(s, others[0]) && !StepOf(j, others[0]) {
      MeanwhileGrows(Next(s, others[0], maxRetry), others[1..], j, maxRetry);
      assert s.server.granted <= Next(s, others[0], maxRetry).server.granted;
    } else {
      MeanwhileGrows(s, others[1..], j, maxRetry);
    }
  }

  lemma TurnOnRecord(s: System, j: nat, turn: Turn, block: int, maxRetry: int)
    requires j in s.calls && s.calls[j].Active()
    ensures var t := TakeTurn(s, j, turn, block, maxRetry);
      && OnRecord(t, j) && t.calls[j].need == s.calls[j].need
      && s.server.granted <= t.server.granted
      && (t.calls[j].pc.Done? ==> t.calls[j].pc.receipt >= |s.server.granted|)
  {
    hide Meanwhile;
    MeanwhileGrows(s, turn.others, j, maxRetry);
  }

  /** A call driven to success was handed, by the script and during this very call, as many numbers
      as it needs, from its result on. */
  lemma {:induction false} DriveOnRecord(s: System, j: nat, turns: seq<Turn>, n: nat, block: int,
                                         maxRetry: int)
    requires j in s.calls && s.calls[j].Active()
    ensures var t := Drive(s, j, turns, n, block, maxRetry);
      && OnRecord(t, j) && t.calls[j].need == s.calls[j].need
      && s.server.granted <= t.server.granted
      && (t.calls[j].pc.Done? ==> t.calls[j].pc.receipt >= |s.server.granted|)
    decreases s.calls[j].pc.Trying?, RoundsLeft(s.calls[j], maxRetry), Order(s.calls[j].pc)
  {
    var turn := TurnAt(turns, n);
    var t := TakeTurn(s, j, turn, block, maxRetry);
    TurnOnRecord(s, j, turn, block, maxRetry);
    DriveStep(s, j, turns, n, block, maxRetry);
    if t.calls[j].Active() {
      DriveOnRecord(t, j, turns, n + 1, block, maxRetry);
    } else {
      DriveStep(t, j, turns, n + 1, block, maxRetry);
    }
  }

  /** What a fault does to a call: a failed allocation ends it; a failed store or issue costs a round
      and nothing else; a failed first try starts the rounds. */
  lemma FaultyTurn(s: System, j: nat, turn: Turn, block: int, maxRetry: int)
    requires j in s.calls && s.calls[j].Active() && turn.fate != Arrives
    ensures var c, d := s.calls[j], TakeTurn(s, j, turn, block, maxRetry).calls[j];
      && (c.pc.Allocating? ==> d.pc.Failed?)
      && (c.pc.Installing? || c.pc.Issuing? ==>
            d.tries == c.tries + 1 && d.pc == if d.tries < maxRetry then Allocating else Failed)
      && (c.pc.Trying? ==> d.tries == 0 && d.pc == if 0 < maxRetry then Allocating else Failed)
  {
  }

  lemma BeginStep(s: System, j: nat, want: int, maxRetry: int)
    requires j !in s.calls
    ensures Enabled(s, Start(j, want))
    ensures var t := Next(s, Start(j, want), maxRetry);
      && j in t.calls && t.calls[j] == Call(if want <= 0 then 1 else want, 0, Trying)
      && t.server == s.server
  {
  }

  function DefaultBlock(want: int): (block: int)
    ensures block >= want && block >= 256
    ensures want >= 32 ==> block == 8 * want
    ensures want < 32 ==> block == 256
  {
    var n := if want <= 0 then 1 else want;
    if n < 32 then 256 else n * 8
  }

  /** The stored record, the cached segment, and `sys`, what all parties have done with them. */
  class Backend {
    const store: ConvStore
    var cell: Option<Cell>
    var sys: System

    ghost predicate Valid()
      reads this, store
    {
      sys.server.docs == store.docs && sys.server.cell == cell
    }

    constructor ()
      ensures Valid() && sys == INITIAL && fresh(store)
    {
      store := new ConvStore();
      cell, sys := None, INITIAL;
    }

    /** The issuing script: the next `need` numbers of the cached segment, if it is the one asked
        for (0 for any) and has room. */
    method InSegment(need: int, segEnd: int) returns (reply: Reply)
      modifies this`cell
      ensures reply == IssueReply(old(cell), need, segEnd)
      ensures reply.Started? <==>
        && old(cell).Some? && (segEnd == 0 || segEnd == old(cell).value.end)
        && old(cell).value.curr + need <= old(cell).value.end
      ensures reply.NotFound? <==> old(cell).None?
      ensures reply.Started? ==>
        && old(cell).Some? && cell == Some(Cell(old(cell).value.curr + need, old(cell).value.end))
        && reply.start == old(cell).value.curr + 1 && cell.value.curr <= cell.value.end
      ensures !reply.Started? ==> cell == old(cell)
    {
      if cell.None? {
        return NotFound;
      }
      var Cell(curr, end) := cell.value;
      if segEnd != 0 && segEnd != end {
        return Exceeded;
      }
      var newv := curr + need;
      if newv > end {
        return Exceeded;
      }
      cell := Some(Cell(newv, end));
      return Started(curr + 1);
    }

    /** One command, executed. */
    method Execute(cmd: Command, ghost server: Server, ghost taker: Option<nat>)
      returns (reply: Reply)
      requires server.docs == store.docs && server.cell == cell
      modifies this`cell, store
      ensures var (after, answer) := Exec(server, cmd, taker);
        store.docs == after.docs && cell == after.cell && reply == answer
    {
      match cmd
      case InSegment(need, segEnd) => reply := InSegment(need, segEnd);
      case AllocSegment(block) =>
        var start, end := store.AllocSegment(block);
        reply := Segment(start, end);
      case SetSegment(curr, end) =>
        cell := Some(Cell(curr, end));
        reply := Stored;
    }

    method Begin(j: nat, want: int, maxRetry: int)
      requires Valid() && j !in sys.calls
      modifies this`sys
      ensures Valid() && sys == Next(old(sys), Start(j, want), maxRetry)
    {
      sys := Next(sys, Start(j, want), maxRetry);
    }

    /** The others do what they do; then the command of call `j` meets its fate. */
    method Send(cmd: Command, j: nat, block: int, turn: Turn, maxRetry: int)
      returns (reply: Option<Reply>, ghost receipt: nat)
      requires Valid() && j in sys.calls && sys.calls[j].Active()
      requires cmd == Sends(sys.calls[j], block)
      modifies this, store
      ensures Valid() && sys == TakeTurn(old(sys), j, turn, block, maxRetry)
      ensures j in sys.calls && sys.calls[j]
        == (if reply.Some? then OnReply(old(sys).calls[j], reply.value, receipt, maxRetry)
            else OnError(old(sys).calls[j], maxRetry))
      ensures reply.Some? <==> turn.fate == Arrives
      ensures cmd.AllocSegment? && reply.Some? ==> reply.value.Segment?
    {
      hide Meanwhile;
      sys := Meanwhile(sys, turn.others, j, maxRetry);
      store.docs := sys.server.docs;
      cell := sys.server.cell;
      reply, receipt := None, |sys.server.granted|;
      match turn.fate {
        case Arrives =>
          var answer := Execute(cmd, sys.server, Some(j));
          reply := Some(answer);
        case ReplyLost =>
          var _ := Execute(cmd, sys.server, None);
        case NotRun =>
      }
      sys := Next(sys, StepFor(j, block, turn.fate), maxRetry);
    }
  }

  /** What one round of the loop comes to. */
  datatype Outcome = Got(start: int) | GivenUp | Again

  class Allocator {
    var blockSizeFn: Option<int -> int>
    var maxRetry: int

    constructor (blockSizeFn: Option<int -> int>, maxRetry: int)
      ensures this.blockSizeFn == blockSizeFn && this.maxRetry == maxRetry
    {
      this.blockSizeFn, this.maxRetry := blockSizeFn, maxRetry;
    }

    function BlockFor(need: int): int
      reads this
    {
      if blockSizeFn.Some? then blockSizeFn.value(need) else DefaultBlock(need)
    }

    function Retries(): int
      reads this
    {
      if maxRetry == 0 then 10 else maxRetry
    }

    /** Fills in the defaults. */
    method Ensure()
      modifies this
      ensures blockSizeFn.Some? && maxRetry != 0
      ensures maxRetry == if old(maxRetry) == 0 then 10 else old(maxRetry)
      ensures old(blockSizeFn).Some? ==> blockSizeFn == old(blockSizeFn)
      ensures old(blockSizeFn).None? ==> forall n :: blockSizeFn.value(n) == DefaultBlock(n)
      ensures forall n :: BlockFor(n) == old(BlockFor(n))
      ensures maxRetry == old(Retries())
    {
      if blockSizeFn.None? {
        blockSizeFn := Some(DefaultBlock);
      }
      if maxRetry == 0 {
        maxRetry := 10;
      }
    }

    /** One round: a segment is taken from the store, cached, and issued from. */
    method TryRound(backend: Backend, j: nat, need: int, ghost c: Call, n: nat, turns: seq<Turn>)
      returns (r: Outcome, m: nat)
      requires backend.Valid() && j in backend.sys.calls && backend.sys.calls[j] == c
      requires c.pc == Allocating && c.need == need && blockSizeFn.Some?
      modifies backend, backend.store
      ensures backend.Valid() && j in backend.sys.calls && m > n
      ensures Drive(backend.sys, j, turns, m, BlockFor(need), maxRetry)
        == Drive(old(backend.sys), j, turns, n, BlockFor(need), maxRetry)
      ensures match r
        case Got(start) =>
          backend.sys.calls[j].pc.Done? && backend.sys.calls[j].pc.start == start
        case GivenUp => backend.sys.calls[j].pc.Failed?
        case Again => backend.sys.calls[j] == Round(c, c.tries + 1, maxRetry)
    {
      hide Drive, TakeTurn, Next, Enabled;
      var size := blockSizeFn.value(need);
      DriveStep(backend.sys, j, turns, n, size, maxRetry);
      var segment, _ := backend.Send(AllocSegment(size), j, size, TurnAt(turns, n), maxRetry);
      m := n + 1;
      if segment.None? {
        return GivenUp, m;
      }
      var start, end := segment.value.start, segment.value.end;
      DriveStep(backend.sys, j, turns, m, size, maxRetry);
      var stored, _ := backend.Send(SetSegment(start - 1, end), j, size, TurnAt(turns, m), maxRetry);
      m := m + 1;
      if stored.None? {
        return Again, m;
      }
      DriveStep(backend.sys, j, turns, m, size, maxRetry);
      var issued, _ := backend.Send(InSegment(need, end), j, size, TurnAt(turns, m), maxRetry);
      m := m + 1;
      if issued.Some? && issued.value.Started? {
        return Got(issued.value.start), m;
      }
      return Again, m;
    }

    /** The tries of call `j`: one on the cached segment, then the rounds. */
    method Try(backend: Backend, j: nat, need: int, turns: seq<Turn>) returns (r: Option<int>)
      requires backend.Valid() && j in backend.sys.calls && blockSizeFn.Some?
      requires backend.sys.calls[j] == Call(need, 0, Trying)
      modifies backend, backend.store
      ensures backend.Valid()
      ensures backend.sys == Drive(old(backend.sys), j, turns, 0, BlockFor(need), maxRetry)
      ensures r.Some? <==> backend.sys.calls[j].pc.Done?
      ensures r.Some? ==> r.value == backend.sys.calls[j].pc.start
    {
      hide Drive, TakeTurn, Next, Enabled;
      ghost var c, block := Call(need, 0, Trying), BlockFor(need);
      ghost var goal := Drive(backend.sys, j, turns, 0, block, maxRetry);
      DriveStep(backend.sys, j, turns, 0, block, maxRetry);
      var first, _ := backend.Send(InSegment(need, 0), j, blockSizeFn.value(need), TurnAt(turns, 0),
                                   maxRetry);
      DriveStep(backend.sys, j, turns, 1, block, maxRetry);
      if first.Some? && first.value.Started? {
        return Some(first.value.start);
      }
      var n := 1;  // commands sent
      var i := 0;
      while i < maxRetry
        invariant i >= 0 && n >= 1 && backend.Valid() && j in backend.sys.calls
        invariant backend.sys.calls[j] == Round(c, i, maxRetry)
        invariant Drive(backend.sys, j, turns, n, block, maxRetry) == goal
        decreases maxRetry - i
      {
        var outcome;
        outcome, n := TryRound(backend, j, need, backend.sys.calls[j], n, turns);
        DriveStep(backend.sys, j, turns, n, block, maxRetry);
        if outcome.Got? {
          return Some(outcome.start);
        }
        if outcome.GivenUp? {
          return None;
        }
        i := i + 1;
      }
      DriveStep(backend.sys, j, turns, n, block, maxRetry);
      return None;
    }

    /** Call number `j` asks for `want` consecutive numbers. Whatever the others do in between and
        whatever becomes of its commands, the loop goes through the turns of the automaton; and a
        result means that as many numbers as asked for (one for none or fewer), from the result on,
        were handed to this call while it ran. */
    method Malloc(backend: Backend, j: nat, want: int, turns: seq<Turn>) returns (r: Option<int>)
      requires backend.Valid() && j !in backend.sys.calls
      modifies this, backend, backend.store
      ensures backend.Valid()
      ensures backend.sys
        == Drive(Next(old(backend.sys), Start(j, want), old(Retries())), j, turns, 0,
                 old(BlockFor(if want <= 0 then 1 else want)), old(Retries()))
      ensures r.Some? <==> backend.sys.calls[j].pc.Done?
      ensures r.Some? ==> r.value == backend.sys.calls[j].pc.start
      ensures r.Some? ==>
        exists g :: |old(backend.sys.server.granted)| <= g < |backend.sys.server.granted|
          && backend.sys.server.granted[g]
               == Grant(Some(j), Range(r.value, r.value + (if want <= 0 then 1 else want) - 1))
    {
      Ensure();
      var need := if want <= 0 then 1 else want;
      BeginStep(backend.sys, j, want, maxRetry);
      backend.Begin(j, want, maxRetry);
      hide Drive, Next, Enabled;
      DriveOnRecord(backend.sys, j, turns, 0, BlockFor(need), maxRetry);
      r := Try(backend, j, need, turns);
      if r.Some? {
        ghost var g := backend.sys.calls[j].pc.receipt;
        assert backend.sys.server.granted[g] == Grant(Some(j), Range(r.value, r.value + need - 1));
      }
    }
  }
}
