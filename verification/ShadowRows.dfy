// The per-user shadows of a conversation's watermark (EnsureTwoSidesByKnownConvID
// in module/chat/seq/index.go): one row per owner, holding server_max_seq.
module ShadowRows {

  type Rows = map<string, int>

  function Max(a: int, b: int): int {
    if a < b then b else a
  }

  // ---- the atomic updates the store performs ----

  datatype Update =
    | Insert(owner: string)                       // only when the row is missing; starts at 0
    | Bump(owner: string, v: int)                 // only when the row exists
    | BumpBoth(userA: string, userB: string, v: int)

  function Apply(u: Update, rows: Rows): Rows {
    match u
    case Insert(owner) => if owner in rows then rows else rows[owner := 0]
    case Bump(owner, v) => if owner in rows then rows[owner := Max(rows[owner], v)] else rows
    case BumpBoth(a, b, v) =>
      map o | o in rows :: if o == a || o == b then Max(rows[o], v) else rows[o]
  }

  /** One owner's side, row by row: a fresh row stays at 0, an old one only moves forward. */
  function Up(rows: Rows, owner: string, v: int): Rows {
    if owner in rows then Apply(Bump(owner, v), rows) else Apply(Insert(owner), rows)
  }

  function RowByRow(rows: Rows, userA: string, userB: string, v: int): Rows {
    Up(Up(rows, userA, v), userB, v)
  }

  /** When both rows exist, the single update of both does what the row-by-row path would. */
  lemma FastPathAgrees(rows: Rows, userA: string, userB: string, v: int)
    requires userA in rows && userB in rows
    ensures Apply(BumpBoth(userA, userB, v), rows) == RowByRow(rows, userA, userB, v)
  {
  }

  // ---- any interleaving of any number of calls ----

  function ApplyAll(us: seq<Update>, rows: Rows): Rows
    decreases |us|
  {
    if us == [] then rows else ApplyAll(us[1..], Apply(us[0], rows))
  }

  predicate Given(u: Update, top: int) {
    u.Insert? || u.v <= top
  }

  /** However the updates of concurrent calls interleave, no row is lost or lowered, and none rises
      above the largest number given (or 0, or where it already was). */
  lemma {:induction false} RowsOnlyRise(us: seq<Update>, rows: Rows, top: int)
    requires top >= 0 && forall i :: 0 <= i < |us| ==> Given(us[i], top)
    ensures forall o :: o in rows ==>
      o in ApplyAll(us, rows) && rows[o] <= ApplyAll(us, rows)[o] <= Max(rows[o], top)
    ensures forall o :: o in ApplyAll(us, rows) && o !in rows ==> 0 <= ApplyAll(us, rows)[o] <= top
    decreases |us|
  {
    if us == [] {
    } else {
      var next := Apply(us[0], rows);
      assert Given(us[0], top);
      RowsOnlyRise(us[1..], next, top);
      assert forall o :: o in rows ==> o in next && rows[o] <= next[o] <= Max(rows[o], top);
      assert forall o :: o in next && o !in rows ==> next[o] == 0;
    }
  }

  class Conversations {
    var rows: Rows

    constructor ()
      ensures rows == map[]
    {
      rows := map[];
    }

    method UpOne(owner: string, v: int) returns (created: bool)
      modifies this
      ensures rows == Up(old(rows), owner, v)
      ensures created <==> owner !in old(rows)
    {
      created := owner !in rows;
      if created {
        rows := rows[owner := 0];
      } else {
        rows := rows[owner := Max(rows[owner], v)];
      }
    }

    /** Both sides exist afterwards; an old row holds the larger of its value and the given one. A
        new row holds 0, unless both sides are the same user and the given number is positive: then
        the second pass finds the row the first has just made. */
    method EnsureTwoSides(userA: string, userB: string, serverMaxSeq: int)
        returns (createdA: bool, createdB: bool)
      modifies this
      ensures rows.Keys == old(rows).Keys + {userA, userB}
      ensures forall o :: o in old(rows) ==>
        rows[o] == if o in {userA, userB} then Max(old(rows)[o], serverMaxSeq) else old(rows)[o]
      ensures forall o :: o in rows && o !in old(rows) ==>
        (rows[o] == 0 <==> userA != userB || serverMaxSeq <= 0)
      ensures createdA <==> userA !in old(rows)
      ensures createdB <==> userB !in old(rows) && userA != userB
      ensures rows == RowByRow(old(rows), userA, userB, serverMaxSeq)
    {
      var count := |rows.Keys * {userA, userB}|;
      BothExist(rows.Keys, userA, userB);
      if count == 2 {
        FastPathAgrees(rows, userA, userB, serverMaxSeq);
        rows := Apply(BumpBoth(userA, userB, serverMaxSeq), rows);
        return false, false;
      }
      createdA := UpOne(userA, serverMaxSeq);
      createdB := UpOne(userB, serverMaxSeq);
    }
  }

  /** Counting the matching rows gives 2 exactly when there are two users and both have a row. */
  lemma BothExist(owners: set<string>, userA: string, userB: string)
    ensures |owners * {userA, userB}| == 2 <==>
      userA != userB && userA in owners && userB in owners
  {
    var both := owners * {userA, userB};
    if userA in owners && userB in owners && userA != userB {
      assert both == {userA, userB};
    } else if userA in owners {
      assert both == {userA};
    } else if userB in owners {
      assert both == {userB};
    } else {
      assert both == {};
    }
  }
}
