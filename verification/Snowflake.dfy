// The snowflake generator (tools/ids/snowid.go). The clock is an arbitrary stream
// of readings: it may stall and go back.
module Snowflake {

  const STAMPS := 0x200_0000_0000  // 2^41
  const NODES := 0x400             // 2^10
  const NUMBERS := 0x1000          // 2^12
  const EPOCH_MS := 1577836800000  // 2020-01-01T00:00:00Z

  /** What one ID is made of: the clock reading, the node and the number within the millisecond. */
  datatype Mark = Mark(ms: int, node: int, num: int)

  predicate WellFormed(m: Mark) {
    0 <= m.node < NODES && 0 <= m.num < NUMBERS
  }

  /** The low 41 bits of the time since the epoch. */
  function Stamp(ms: int): int {
    (ms - EPOCH_MS) % STAMPS
  }

  /** Stamp, node and number side by side: 41, 10 and 12 bits. */
  function Pack(m: Mark): (id: int) {
    Stamp(m.ms) * NODES * NUMBERS + m.node * NUMBERS + m.num
  }

  /** The reading is not before the epoch and less than 2^41 ms past it. */
  predicate InEra(ms: int) {
    0 <= ms - EPOCH_MS < STAMPS
  }

  /** Later in time, or later within the same millisecond. */
  predicate Before(a: Mark, b: Mark) {
    a.ms < b.ms || (a.ms == b.ms && a.num < b.num)
  }

  /** Fifty years from 1970, twelve of them leap years. */
  lemma EpochIs2020()
    ensures EPOCH_MS == (50 * 365 + 12) * 24 * 60 * 60 * 1000
  {
  }

  // ---- bits ----

  function Pow2(k: nat): (p: nat)
    ensures p >= 1
  {
    if k == 0 then 1 else 2 * Pow2(k - 1)
  }

  function Shl(a: nat, k: nat): nat {
    a * Pow2(k)
  }

  /** The bits two numbers share; a negative `a` is read in two's complement. */
  function And(a: int, m: nat): nat
    decreases m
  {
    if m == 0 then 0 else 2 * And(a / 2, m / 2) + (if a % 2 == 1 && m % 2 == 1 then 1 else 0)
  }

  function Or(a: nat, b: nat): nat {
    if a == 0 && b == 0 then 0
    else 2 * Or(a / 2, b / 2) + (if a % 2 == 1 || b % 2 == 1 then 1 else 0)
  }

  lemma LowBits(a: int, p: nat)
    requires p >= 1
    ensures 2 * (a / 2 % p) + a % 2 == a % (2 * p)
  {
    var q, r := a / 2 / p, a / 2 % p;
    assert a == (2 * p) * q + (2 * r + a % 2);
    Remainder(a, 2 * p, q, 2 * r + a % 2);
  }

  lemma Remainder(a: int, d: int, q: int, r: int)
    requires 0 <= r < d && a == d * q + r
    ensures a % d == r
  {
    var k := a / d - q;
    assert d * k == r - a % d;
    AwayFromZero(d, k);
  }

  lemma AwayFromZero(d: int, k: int)
    requires d >= 1
    ensures k >= 1 ==> d * k >= d
    ensures k <= -1 ==> d * k <= -d
  {
  }

  /** Masking with 2^k - 1 is the remainder modulo 2^k. */
  lemma {:induction false} AndMask(a: int, k: nat)
    ensures And(a, Pow2(k) - 1) == a % Pow2(k)
    decreases k
  {
    if k == 0 {
    } else {
      var p := Pow2(k - 1);
      AndMask(a / 2, k - 1);
      LowBits(a, p);
      assert (2 * p - 1) / 2 == p - 1 && (2 * p - 1) % 2 == 1;
    }
  }

  lemma {:induction false} OrZero(a: nat)
    ensures Or(a, 0) == a
  {
    if a == 0 {
    } else {
      OrZero(a / 2);
    }
  }

  /** Joining a shifted number with one that fits below it is their sum. */
  lemma {:induction false} OrBelow(a: nat, k: nat, b: nat)
    requires b < Pow2(k)
    ensures Or(Shl(a, k), b) == Shl(a, k) + b
  {
    if k == 0 {
      OrZero(a);
    } else {
      var h := Shl(a, k - 1);
      assert Shl(a, k) == 2 * h by { Double(a, Pow2(k - 1)); }
      OrBelow(a, k - 1, b / 2);
    }
  }

  lemma Double(a: int, p: int)
    ensures a * (2 * p) == 2 * (a * p)
  {
  }

  lemma Widths()
    ensures Pow2(10) == NODES && Pow2(12) == NUMBERS && Pow2(22) == NODES * NUMBERS
    ensures Pow2(41) == STAMPS
  {
    assert Pow2(10) == 0x400;
    assert Pow2(20) == 0x400 * Pow2(10);
    assert Pow2(30) == 0x400 * Pow2(20);
    assert Pow2(40) == 0x400 * Pow2(30);
  }

  // ---- the packing ----

  /** The ID as the program puts it together. */
  function PackBits(m: Mark): nat
    requires WellFormed(m)
  {
    Or(Or(Shl(And(m.ms - EPOCH_MS, Shl(1, 41) - 1), 22), Shl(m.node, 12)), m.num)
  }

  /** Shifting the three fields into place and joining them puts them side by side. */
  lemma PackBitsIsPack(m: Mark)
    requires WellFormed(m)
    ensures PackBits(m) == Pack(m)
  {
    hide Pow2, And, Or;
    var ts: nat := Stamp(m.ms);
    Widths();
    AndMask(m.ms - EPOCH_MS, 41);
    OrBelow(ts, 22, Shl(m.node, 12));
    OrBelow(ts * NODES + m.node, 12, m.num);
  }

  /** The fields can be read back from the ID, which fits in a nonnegative 64-bit integer. */
  lemma Unpack(m: Mark)
    requires WellFormed(m)
    ensures Pack(m) / (NODES * NUMBERS) == Stamp(m.ms)
    ensures Pack(m) / NUMBERS % NODES == m.node
    ensures Pack(m) % NUMBERS == m.num
    ensures 0 <= Pack(m) < 0x8000_0000_0000_0000
  {
  }

  lemma SameStamp(x: int, y: int)
    ensures Stamp(x) == Stamp(y) <==> (x - y) % STAMPS == 0
  {
  }

  /** Two IDs coincide exactly when node and number do and the readings are a multiple of 2^41 ms
      apart. */
  lemma PackCollision(a: Mark, b: Mark)
    requires WellFormed(a) && WellFormed(b)
    ensures Pack(a) == Pack(b) <==>
      a.node == b.node && a.num == b.num && (a.ms - b.ms) % STAMPS == 0
  {
    Unpack(a);
    Unpack(b);
    SameStamp(a.ms, b.ms);
  }

  /** Within the era an ID determines its mark, so IDs of different nodes never collide. */
  lemma PackInjective(a: Mark, b: Mark)
    requires WellFormed(a) && WellFormed(b) && InEra(a.ms) && InEra(b.ms)
    requires Pack(a) == Pack(b)
    ensures a == b
  {
    PackCollision(a, b);
  }

  /** On one node, later marks pack to larger IDs. */
  lemma PackOrdered(a: Mark, b: Mark)
    requires WellFormed(a) && WellFormed(b) && InEra(a.ms) && InEra(b.ms)
    requires Before(a, b) && a.node == b.node
    ensures Pack(a) < Pack(b)
  {
  }

  /** The era matters: 2^41 ms apart the stamps coincide, and so do the IDs. */
  lemma EraMatters(a: Mark)
    ensures Pack(a) == Pack(a.(ms := a.ms + STAMPS))
  {
    SameStamp(a.ms + STAMPS, a.ms);
    hide Stamp;
  }

  // ---- runs ----

  ghost predicate Rising(marks: seq<Mark>) {
    forall i, j :: 0 <= i < j < |marks| ==> Before(marks[i], marks[j])
  }

  /** The IDs of one generator are distinct, whatever its clock does and however often its node is
      changed; and those of one node increase. */
  lemma IdsDistinctAndOrdered(marks: seq<Mark>, i: nat, j: nat)
    requires Rising(marks) && i < j < |marks|
    requires WellFormed(marks[i]) && WellFormed(marks[j])
    requires InEra(marks[i].ms) && InEra(marks[j].ms)
    ensures Pack(marks[i]) != Pack(marks[j])
    ensures marks[i].node == marks[j].node ==> Pack(marks[i]) < Pack(marks[j])
  {
    if Pack(marks[i]) == Pack(marks[j]) {
      PackInjective(marks[i], marks[j]);
    }
    if marks[i].node == marks[j].node {
      PackOrdered(marks[i], marks[j]);
    }
  }

  /** The clock reading can be used: it is later, or the millisecond has numbers left. */
  predicate Usable(last: int, num: int, reading: int) {
    last < reading || (last == reading && num < NUMBERS - 1)
  }

  /** The next mark over a stream of readings: the first reading that is not behind the last one
      used decides; a full millisecond waits for the first reading after it. */
  function NextMark(last: int, num: int, node: int, readings: seq<int>): (m: Mark)
    requires exists i :: 0 <= i < |readings| && Usable(last, num, readings[i])
    ensures Before(Mark(last, node, num), m)
    ensures m.ms > last ==> m.num == 0 && m.ms in readings
    ensures m.ms == last ==> num < NUMBERS - 1 && m.num == num + 1
    ensures m.node == node
  {
    if last < readings[0] then Mark(readings[0], node, 0)
    else if readings[0] == last && num < NUMBERS - 1 then Mark(last, node, num + 1)
    else
      assert !Usable(last, num, readings[0]);
      assert exists i :: 0 <= i < |readings[1..]| && Usable(last, num, readings[1..][i]) by {
        var i :| 0 <= i < |readings| && Usable(last, num, readings[i]);
        assert readings[1..][i - 1] == readings[i];
      }
      NextMark(last, num, node, readings[1..])
  }

  /** The first usable reading, and no other, decides. */
  lemma {:induction false} FirstUsableDecides(last: int, num: int, node: int, readings: seq<int>, i: nat)
    requires i < |readings| && Usable(last, num, readings[i])
    requires forall j :: 0 <= j < i ==> !Usable(last, num, readings[j])
    ensures NextMark(last, num, node, readings)
      == if readings[i] == last then Mark(last, node, num + 1) else Mark(readings[i], node, 0)
    decreases i
  {
    if i == 0 {
    } else {
      assert !Usable(last, num, readings[0]);
      assert readings[1..][i - 1] == readings[i];
      FirstUsableDecides(last, num, node, readings[1..], i - 1);
    }
  }

  /** Reading `k` lies behind, or finds its millisecond full: it is passed over. */
  lemma PassedOver(last: int, num: int, node: int, readings: seq<int>, k: nat, ahead: nat)
    requires k < ahead < |readings| && Usable(last, num, readings[ahead])
    requires readings[k] <= last && !Usable(last, num, readings[k])
    ensures Usable(last, num, readings[k..][ahead - k])
    ensures Usable(last, num, readings[k + 1..][ahead - k - 1])
    ensures NextMark(last, num, node, readings[k..]) == NextMark(last, num, node, readings[k + 1..])
  {
    assert readings[k..][1..] == readings[k + 1..];
  }

  /** Reading `k` decides. */
  lemma Decides(last: int, num: int, node: int, readings: seq<int>, k: nat, ahead: nat)
    requires k <= ahead < |readings| && Usable(last, num, readings[ahead])
    requires Usable(last, num, readings[k])
    ensures Usable(last, num, readings[k..][ahead - k])
    ensures NextMark(last, num, node, readings[k..])
      == if readings[k] == last then Mark(last, node, num + 1) else Mark(readings[k], node, 0)
  {
  }

  lemma NextNumber(n: int)
    requires 0 <= n < NUMBERS
    ensures And(n + 1, 0xFFF) == if n == NUMBERS - 1 then 0 else n + 1
  {
    hide And, Pow2;
    Widths();
    AndMask(n + 1, 12);
  }

  class Generator {
    var nodeID: int
    var num: int       // within the millisecond
    var lastTSMS: int

    ghost var marks: seq<Mark>
    ghost var ids: seq<int>

    ghost predicate Valid()
      reads this
    {
      && 0 <= nodeID < NODES && 0 <= num < NUMBERS
      && Rising(marks)
      && (forall i :: 0 <= i < |marks| ==>
        WellFormed(marks[i]) && !Before(Mark(lastTSMS, nodeID, num), marks[i]))
      && |ids| == |marks| && forall i :: 0 <= i < |ids| ==> ids[i] == Pack(marks[i])
    }

    constructor ()
      ensures Valid() && ids == [] && nodeID == 1
    {
      nodeID, num, lastTSMS := 1, 0, 0;
      marks, ids := [], [];
    }

    method SetNodeID(node: int)
      requires Valid()
      modifies this`nodeID
      ensures Valid()
      ensures nodeID == if 0 <= node <= 1023 then node else 1
    {
      nodeID := node;
      if node < 0 || node > 1023 {
        nodeID := 1;
      }
    }

    /** Takes readings until the clock allows a new mark, and moves to it. */
    method Tick(readings: seq<int>)
      requires 0 <= num < NUMBERS
      requires exists i :: 0 <= i < |readings| && Usable(lastTSMS, num, readings[i])
      modifies this`num, this`lastTSMS
      ensures Mark(lastTSMS, nodeID, num)
        == NextMark(old(lastTSMS), old(num), nodeID, readings)
    {
      hide NextMark, And;
      ghost var n, goal := num, NextMark(lastTSMS, num, nodeID, readings);
      ghost var ahead :| 0 <= ahead < |readings| && Usable(lastTSMS, n, readings[ahead]);
      var k := 0;  // readings taken
      var now := readings[0];
      assert readings[0..] == readings;
      while now < lastTSMS
        invariant 0 <= k <= ahead && now == readings[k]
        invariant Usable(lastTSMS, n, readings[k..][ahead - k]) && num == n
        invariant NextMark(lastTSMS, n, nodeID, readings[k..]) == goal
        decreases |readings| - k
      {
        PassedOver(lastTSMS, n, nodeID, readings, k, ahead);
        k := k + 1;
        now := readings[k];
      }
      if now == lastTSMS {
        NextNumber(num);
        num := And(num + 1, 0xFFF);
        assert num == if n == NUMBERS - 1 then 0 else n + 1;
        if num == 0 {
          while now <= lastTSMS
            invariant 0 <= k <= ahead && now == readings[k]
            invariant Usable(lastTSMS, n, readings[k..][ahead - k]) && num == 0
            invariant NextMark(lastTSMS, n, nodeID, readings[k..]) == goal
            decreases |readings| - k
          {
            PassedOver(lastTSMS, n, nodeID, readings, k, ahead);
            k := k + 1;
            now := readings[k];
          }
        }
      } else {
        num := 0;
      }
      Decides(lastTSMS, n, nodeID, readings, k, ahead);
      lastTSMS := now;
    }

    /** Draws the next ID. The call returns on the first usable reading, so the stream must hold one;
        until then it may stall and go back at will. */
    method Next(readings: seq<int>) returns (id: int)
      requires Valid()
      requires exists i :: 0 <= i < |readings| && Usable(lastTSMS, num, readings[i])
      modifies this
      ensures Valid() && nodeID == old(nodeID)
      ensures marks == old(marks) + [NextMark(old(lastTSMS), old(num), nodeID, readings)]
      ensures ids == old(ids) + [id]
    {
      hide And, Or, Pow2, Pack;
      ghost var before := Mark(lastTSMS, nodeID, num);
      Tick(readings);
      ghost var mark := Mark(lastTSMS, nodeID, num);
      var ts := And(lastTSMS - EPOCH_MS, Shl(1, 41) - 1);
      id := Or(Or(Shl(ts, 22), Shl(nodeID, 12)), num);
      PackBitsIsPack(mark);
      assert Before(before, mark);
      marks, ids := marks + [mark], ids + [id];
    }
  }
}
