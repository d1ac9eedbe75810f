// The stored record of one conversation's watermarks (module/chat/seq/db.go and
// the upserts of index.go): every operation is one atomic update of a document
// in which a field may not have been written yet.
module SeqConversation {

  import opened Options

  datatype Doc = Doc(issued: Option<int>, max: Option<int>, min: Option<int>)

  /** The documents of one conversation: the tenant's own one, and the one without a tenant that
      UpdateMaxSeq inserts when it finds nothing to update. */
  datatype Collection = Collection(doc: Option<Doc>, stray: Option<Doc>)

  const EMPTY := Collection(None, None)
  const BLANK := Doc(None, None, None)

  datatype Op =
    | Ensure
    | Alloc(block: int)
    | Commit(toSeq: int)
    | RaiseMin(newMin: int)
    | RaiseFloor(floor: int)
    | UpdateMax(newMax: int, strayFirst: bool)

  /** A field that is absent decodes to 0. */
  function Read(field: Option<int>): int {
    if field.Some? then field.value else 0
  }

  function Issued(c: Collection): int {
    if c.doc.Some? then Read(c.doc.value.issued) else 0
  }

  function MaxSeq(c: Collection): int {
    if c.doc.Some? then Read(c.doc.value.max) else 0
  }

  function MinSeq(c: Collection): int {
    if c.doc.Some? then Read(c.doc.value.min) else 0
  }

  /** The store's `$max` operator: an absent field takes the value, whatever it is. */
  function MaxUpdate(field: Option<int>, v: int): Option<int> {
    if field.None? || field.value < v then Some(v) else field
  }

  function BlockSize(block: int): (b: int)
    ensures b >= 1
  {
    if block <= 0 then 256 else block
  }

  function Apply(op: Op, c: Collection): Collection {
    match op
    case Ensure =>
      if c.doc.Some? then c else c.(doc := Some(Doc(Some(0), Some(0), Some(0))))
    case Alloc(block) =>
      var total := Issued(c) + BlockSize(block);
      if c.doc.Some? then c.(doc := Some(c.doc.value.(issued := Some(total))))
      else c.(doc := Some(Doc(Some(total), Some(0), Some(0))))
    case Commit(toSeq) =>
      var d := if c.doc.Some? then c.doc.value else BLANK;
      c.(doc := Some(d.(max := MaxUpdate(d.max, toSeq))))
    case RaiseMin(newMin) =>
      if c.doc.Some? && c.doc.value.max.Some? && c.doc.value.max.value >= newMin
      then c.(doc := Some(c.doc.value.(min := MaxUpdate(c.doc.value.min, newMin))))
      else c
    case RaiseFloor(floor) =>
      var d := if c.doc.Some? then c.doc.value else BLANK;
      c.(doc := Some(d.(issued := MaxUpdate(d.issued, floor))))
    case UpdateMax(newMax, strayFirst) =>
      if HitsTenant(c, strayFirst)
      then c.(doc := Some(c.doc.value.(max := MaxUpdate(c.doc.value.max, newMax))))
      else
        var d := if c.stray.Some? then c.stray.value else BLANK;
        c.(stray := Some(d.(max := MaxUpdate(d.max, newMax))))
  }

  /** UpdateMaxSeq filters on the conversation only; with two matches the store may take either. */
  predicate HitsTenant(c: Collection, strayFirst: bool) {
    c.doc.Some? && (c.stray.None? || !strayFirst)
  }

  // ---- the watermarks stay in order ----

  predicate Ordered(c: Collection) {
    0 <= MinSeq(c) <= MaxSeq(c) <= Issued(c)
  }

  /** A new max_seq is safe when it has been issued, and is not negative where it would be
      the first value stored. */
  predicate SafeMax(c: Collection, v: int) {
    v <= Issued(c) && (v >= 0 || (c.doc.Some? && c.doc.value.max.Some?))
  }

  /** What a caller must check before an operation for the order to survive it. */
  predicate Safe(op: Op, c: Collection) {
    match op
    case Ensure => true
    case Alloc(_) => true
    case Commit(toSeq) => SafeMax(c, toSeq)
    case RaiseMin(newMin) =>
      newMin >= 0 || c.doc.None? || c.doc.value.max.None? || c.doc.value.min.Some?
    case RaiseFloor(floor) => floor >= 0 || (c.doc.Some? && c.doc.value.issued.Some?)
    case UpdateMax(newMax, strayFirst) => HitsTenant(c, strayFirst) ==> SafeMax(c, newMax)
  }

  /** The guard is exact: one operation keeps the order if and only if it was safe. */
  lemma OrderKeptIffSafe(op: Op, c: Collection)
    requires Ordered(c)
    ensures Ordered(Apply(op, c)) <==> Safe(op, c)
  {
  }

  predicate NoLower(c: Collection, d: Collection) {
    MinSeq(c) <= MinSeq(d) && MaxSeq(c) <= MaxSeq(d) && Issued(c) <= Issued(d)
  }

  function ApplyAll(ops: seq<Op>, c: Collection): Collection
    decreases |ops|
  {
    if ops == [] then c else ApplyAll(ops[1..], Apply(ops[0], c))
  }

  predicate AllSafe(ops: seq<Op>, c: Collection)
    decreases |ops|
  {
    ops == [] || (Safe(ops[0], c) && AllSafe(ops[1..], Apply(ops[0], c)))
  }

  /** Watermark order over whole runs: under any interleaving of safe operations the order holds
      at the end (hence at every point), and no watermark is ever lower than before. */
  lemma {:induction false} WatermarksOnlyRise(ops: seq<Op>, c: Collection)
    requires Ordered(c) && AllSafe(ops, c)
    ensures Ordered(ApplyAll(ops, c))
    ensures NoLower(c, ApplyAll(ops, c))
    decreases |ops|
  {
    if ops == [] {
    } else {
      OrderKeptIffSafe(ops[0], c);
      WatermarksOnlyRise(ops[1..], Apply(ops[0], c));
    }
  }

  /** Unsafe operations do break it: a floor below zero on a fresh conversation makes the next
      segment start at or below zero. */
  lemma NegativeFloorIssuesBelowOne(floor: int)
    requires floor < 0
    ensures !Safe(RaiseFloor(floor), EMPTY)
    ensures Issued(Apply(RaiseFloor(floor), EMPTY)) + 1 <= 0
  {
  }

  /** The record has a max_seq, and it is at least `v`. */
  predicate HasMaxFrom(c: Collection, v: int) {
    c.doc.Some? && c.doc.value.max.Some? && c.doc.value.max.value >= v
  }

  /** The document, updated in place. */
  class ConvStore {
    var docs: Collection

    constructor ()
      ensures docs == EMPTY
    {
      docs := EMPTY;
    }

    method EnsureSeqConversation() returns (created: bool)
      modifies this
      ensures docs == Apply(Ensure, old(docs))
      ensures created <==> old(docs).doc.None?
      ensures !created ==> docs == old(docs)
      ensures created ==> docs.doc == Some(Doc(Some(0), Some(0), Some(0))) && Ordered(docs)
    {
      created := docs.doc.None?;
      if created {
        docs := docs.(doc := Some(Doc(Some(0), Some(0), Some(0))));
      }
    }

    /** Takes the next `block` numbers (256 when `block` is not positive). */
    method AllocSegment(block: int) returns (start: int, end: int)
      modifies this
      ensures docs == Apply(Alloc(block), old(docs))
      ensures start == Issued(old(docs)) + 1 <= end == Issued(docs)
      ensures end - start + 1 == if block <= 0 then 256 else block
      ensures MaxSeq(docs) == MaxSeq(old(docs)) && MinSeq(docs) == MinSeq(old(docs))
    {
      var size := block;
      if size <= 0 {
        size := 256;
      }
      var before := Issued(docs);
      if docs.doc.Some? {
        docs := docs.(doc := Some(docs.doc.value.(issued := Some(before + size))));
      } else {
        docs := docs.(doc := Some(Doc(Some(before + size), Some(0), Some(0))));
      }
      return before + 1, before + size;
    }

    /** A max_seq that is stored already never falls; one that is absent takes what it is given. */
    method AdvanceCommit(toSeq: int)
      modifies this
      ensures docs == Apply(Commit(toSeq), old(docs))
      ensures old(docs).doc.Some? && old(docs).doc.value.max.Some? ==>
        MaxSeq(docs) >= MaxSeq(old(docs)) && MaxSeq(docs) in {MaxSeq(old(docs)), toSeq}
      ensures old(docs).doc.None? || old(docs).doc.value.max.None? ==> MaxSeq(docs) == toSeq
      ensures MaxSeq(docs) >= toSeq
      ensures Issued(docs) == Issued(old(docs)) && MinSeq(docs) == MinSeq(old(docs))
    {
      var d := if docs.doc.Some? then docs.doc.value else BLANK;
      docs := docs.(doc := Some(d.(max := MaxUpdate(d.max, toSeq))));
    }

    /** The minimum reaches `newMin` when a stored max_seq is at least that, and else does not move;
        so it never passes max_seq. */
    method AdvanceMin(newMin: int)
      modifies this
      ensures docs == Apply(RaiseMin(newMin), old(docs))
      ensures HasMaxFrom(old(docs), newMin) ==>
        docs.doc.Some? && docs.doc.value.min.Some? && MinSeq(docs) >= newMin
      ensures !HasMaxFrom(old(docs), newMin) ==> docs == old(docs)
      ensures MinSeq(docs) in {MinSeq(old(docs)), newMin}
      ensures MinSeq(old(docs)) <= MaxSeq(old(docs)) ==> MinSeq(docs) <= MaxSeq(docs)
      ensures Issued(docs) == Issued(old(docs)) && MaxSeq(docs) == MaxSeq(old(docs))
    {
      if docs.doc.Some? && docs.doc.value.max.Some? && docs.doc.value.max.value >= newMin {
        docs := docs.(doc := Some(docs.doc.value.(min := MaxUpdate(docs.doc.value.min, newMin))));
      }
    }

    /** An issued_seq that is stored already never falls; one that is absent takes the floor. */
    method RaiseIssuedFloor(floor: int)
      modifies this
      ensures docs == Apply(RaiseFloor(floor), old(docs))
      ensures old(docs).doc.Some? && old(docs).doc.value.issued.Some? ==>
        Issued(docs) >= Issued(old(docs)) && Issued(docs) in {Issued(old(docs)), floor}
      ensures old(docs).doc.None? || old(docs).doc.value.issued.None? ==> Issued(docs) == floor
      ensures Issued(docs) >= floor
      ensures MaxSeq(docs) == MaxSeq(old(docs)) && MinSeq(docs) == MinSeq(old(docs))
    {
      var d := if docs.doc.Some? then docs.doc.value else BLANK;
      docs := docs.(doc := Some(d.(issued := MaxUpdate(d.issued, floor))));
    }

    method UpdateMaxSeq(newMax: int, strayFirst: bool) returns (maxSeq: int)
      modifies this
      ensures docs == Apply(UpdateMax(newMax, strayFirst), old(docs))
      ensures maxSeq >= newMax
      ensures old(docs).doc.None? || (old(docs).stray.Some? && strayFirst) ==>
        && docs.doc == old(docs).doc && docs.stray.Some?
        && (maxSeq == newMax || (old(docs).stray.Some? && old(docs).stray.value.max == Some(maxSeq)))
        && (old(docs).stray.Some? && old(docs).stray.value.max.Some? ==>
              maxSeq >= old(docs).stray.value.max.value)
      ensures old(docs).doc.Some? && (old(docs).stray.None? || !strayFirst) ==>
        && docs.stray == old(docs).stray
        && Issued(docs) == Issued(old(docs)) && MinSeq(docs) == MinSeq(old(docs))
        && (maxSeq == newMax || old(docs).doc.value.max == Some(maxSeq))
        && (old(docs).doc.value.max.Some? ==> maxSeq >= MaxSeq(old(docs)))
      ensures HitsTenant(old(docs), strayFirst) ==> maxSeq == MaxSeq(docs)
      ensures !HitsTenant(old(docs), strayFirst) ==>
        docs.stray.Some? && docs.stray.value.max == Some(maxSeq)
    {
      if HitsTenant(docs, strayFirst) {
        var m := MaxUpdate(docs.doc.value.max, newMax);
        docs := docs.(doc := Some(docs.doc.value.(max := m)));
        return m.value;
      }
      var d := if docs.stray.Some? then docs.stray.value else BLANK;
      var m := MaxUpdate(d.max, newMax);
      docs := docs.(stray := Some(d.(max := m)));
      return m.value;
    }
  }
}
