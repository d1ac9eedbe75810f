// The segmented sequence allocator (module/chat/seq/seq.go): the two scripts on
// the cached segment, the control flow of one Malloc call, and the system of any
// number of calls interleaved command by command with faults.
module SeqAllocator {
  import opened Options
  import opened SeqConversation

  /** The cached hash: numbers up to `curr` are handed out, those up to `end` are left. */
  datatype Cell = Cell(curr: int, end: int)

  datatype Range = Range(lo: int, hi: int) {
    predicate Has(x: int) { lo <= x <= hi }
    predicate Disjoint(r: Range) { hi < r.lo || r.hi < lo }
  }

  /** A range the script handed out, and the call that got the reply (none if it was lost). */
  datatype Grant = Grant(taker: Option<nat>, range: Range)

  datatype Server = Server(docs: Collection, cell: Option<Cell>, granted: seq<Grant>)

  datatype Command =
    | InSegment(need: int, segEnd: int)
    | AllocSegment(block: int)
    | SetSegment(curr: int, end: int)

  datatype Reply =
    | Started(start: int)
    | NotFound
    | Exceeded
    | Segment(start: int, end: int)
    | Stored

  /** Issuing inside the cached segment; `segEnd` 0 accepts any segment. */
  function IssueReply(cell: Option<Cell>, need: int, segEnd: int): Reply {
    if cell.None? then NotFound
    else if segEnd != 0 && segEnd != cell.value.end then Exceeded
    else if cell.value.curr + need > cell.value.end then Exceeded
    else Started(cell.value.curr + 1)
  }

  /** One command executed by the server; `taker` is the call the reply will reach. */
  function Exec(s: Server, cmd: Command, taker: Option<nat>): (Server, Reply) {
    match cmd
    case InSegment(need, segEnd) =>
      var reply := IssueReply(s.cell, need, segEnd);
      if reply.Started? then
        (s.(cell := Some(s.cell.value.(curr := s.cell.value.curr + need)),
            granted := s.granted + [Grant(taker, Range(reply.start, reply.start + need - 1))]),
         reply)
      else (s, reply)
    case AllocSegment(block) =>
      var docs := Apply(Alloc(block), s.docs);
      (s.(docs := docs), Segment(Issued(s.docs) + 1, Issued(docs)))
    case SetSegment(curr, end) =>
      (s.(cell := Some(Cell(curr, end))), Stored)
  }

  // ---- one call ----

  /** Where a call stands: the command it is about to send, or its result. `receipt` points at
      the grant behind the result. */
  datatype Pc =
    | Trying
    | Allocating
    | Installing(start: int, end: int)
    | Issuing(segEnd: int)
    | Done(start: int, receipt: nat)
    | Failed

  datatype Call = Call(need: int, tries: nat, pc: Pc) {
    predicate Active() { !pc.Done? && !pc.Failed? }

    function Result(): Range
      requires pc.Done?
    {
      Range(pc.start, pc.start + need - 1)
    }
  }

  function Begin(need: int): Call {
    Call(if need <= 0 then 1 else need, 0, Trying)
  }

  /** The loop head: another round while rounds are left. */
  function Round(c: Call, tries: nat, maxRetry: int): Call {
    c.(tries := tries, pc := if tries < maxRetry then Allocating else Failed)
  }

  function Sends(c: Call, block: int): Command
    requires c.Active()
  {
    match c.pc
    case Trying => InSegment(c.need, 0)
    case Allocating => AllocSegment(block)
    case Installing(start, end) => SetSegment(start - 1, end)
    case Issuing(segEnd) => InSegment(c.need, segEnd)
  }

  function OnReply(c: Call, reply: Reply, receipt: nat, maxRetry: int): Call
    requires c.Active()
  {
    match c.pc
    case Trying =>
      if reply.Started? then c.(pc := Done(reply.start, receipt)) else Round(c, 0, maxRetry)
    case Allocating =>
      if reply.Segment? then c.(pc := Installing(reply.start, reply.end)) else c.(pc := Failed)
    case Installing(_, end) => c.(pc := Issuing(end))
    case Issuing(_) =>
      if reply.Started? then c.(pc := Done(reply.start, receipt))
      else Round(c, c.tries + 1, maxRetry)
  }

  function OnError(c: Call, maxRetry: int): Call
    requires c.Active()
  {
    match c.pc
    case Trying => Round(c, 0, maxRetry)
    case Allocating => c.(pc := Failed)
    case Installing(_, _) => Round(c, c.tries + 1, maxRetry)
    case Issuing(_) => Round(c, c.tries + 1, maxRetry)
  }

  // ---- all calls together ----

  /** `late` holds commands whose sender has given up: each may still be executed once, or never. */
  datatype System = System(server: Server, calls: map<nat, Call>, late: map<nat, Command>, sent: nat)

  datatype Step =
    | Start(j: nat, need: int)
    | Answered(j: nat, block: int)
    | Lost(j: nat, block: int)
    | TimedOut(j: nat, block: int)
    | LateRun(m: nat)
    | Expire
    | Store(op: Op)

  const INITIAL := System(Server(EMPTY, None, []), map[], map[], 0)

  predicate Enabled(s: System, step: Step) {
    match step
    case Start(j, _) => j !in s.calls
    case Answered(j, _) => j in s.calls && s.calls[j].Active()
    case Lost(j, _) => j in s.calls && s.calls[j].Active()
    case TimedOut(j, _) => j in s.calls && s.calls[j].Active()
    case LateRun(m) => m in s.late
    case Expire => true
    case Store(_) => true
  }

  function Answer(s: System, j: nat, block: int, maxRetry: int): System
    requires j in s.calls && s.calls[j].Active()
  {
    var (server, reply) := Exec(s.server, Sends(s.calls[j], block), Some(j));
    var call := OnReply(s.calls[j], reply, |s.server.granted|, maxRetry);
    s.(server := server, calls := s.calls[j := call])
  }

  function GiveUp(s: System, j: nat, block: int, maxRetry: int): System
    requires j in s.calls && s.calls[j].Active()
  {
    s.(calls := s.calls[j := OnError(s.calls[j], maxRetry)],
       late := s.late[s.sent := Sends(s.calls[j], block)],
       sent := s.sent + 1)
  }

  function RunLate(s: System, m: nat): System
    requires m in s.late
  {
    s.(server := Exec(s.server, s.late[m], None).0, late := s.late - {m})
  }

  function Next(s: System, step: Step, maxRetry: int): System
    requires Enabled(s, step)
  {
    match step
    case Start(j, need) => s.(calls := s.calls[j := Begin(need)])
    case Answered(j, block) => Answer(s, j, block, maxRetry)
    // executed, but the reply never arrives
    case Lost(j, block) => RunLate(GiveUp(s, j, block, maxRetry), s.sent)
    // not executed by the time the sender gives up
    case TimedOut(j, block) => GiveUp(s, j, block, maxRetry)
    case LateRun(m) => RunLate(s, m)
    case Expire => s.(server := s.server.(cell := None))
    case Store(op) => s.(server := s.server.(docs := Apply(op, s.server.docs)))
  }

  predicate Possible(s: System, steps: seq<Step>, maxRetry: int)
    decreases |steps|
  {
    steps == [] ||
    (Enabled(s, steps[0]) && Possible(Next(s, steps[0], maxRetry), steps[1..], maxRetry))
  }

  function Run(s: System, steps: seq<Step>, maxRetry: int): System
    requires Possible(s, steps, maxRetry)
    decreases |steps|
  {
    if steps == [] then s else Run(Next(s, steps[0], maxRetry), steps[1..], maxRetry)
  }
}
