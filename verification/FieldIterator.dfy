/**
 The cyclic descriptor iterator (pb_common.c) and the macros whose incremental offsets it sums up (pb.h).
 */
module FieldIterator {
  import opened Bytes
  import opened Schema

  /** sizeof(void*), left open. */
  const POINTER_BYTES: nat

  // ---------- where the entries' members are ----------

  /** Entry i continues the union of entry i-1: PB_DATAOFFSET_UNION is PB_SIZE_MAX. */
  predicate InSameUnion(fields: seq<Field>, i: nat)
    requires 0 < i < |fields|
  {
    fields[i - 1].htype.HOneof? && fields[i].htype.HOneof? && fields[i].dataOffset == SizeMax()
  }

  /** Bytes an entry's member takes in the struct. */
  function MemberBytes(f: Field): nat {
    if f.atype.AStatic? && f.htype.HRepeated? then f.dataSize * f.arraySize
    else if f.atype.APointer? then POINTER_BYTES
    else f.dataSize
  }

  /** The sum of the relative offsets up to entry i. */
  function Offset(fields: seq<Field>, i: nat): nat
    requires i < |fields|
  {
    if i == 0 then fields[0].dataOffset
    else if InSameUnion(fields, i) then Offset(fields, i - 1)
    else Offset(fields, i - 1) + MemberBytes(fields[i - 1]) + fields[i].dataOffset
  }

  /** Where the has_ flag, the count or the which_ tag is; it is not recomputed inside a union. */
  function CounterOffset(fields: seq<Field>, i: nat): int
    requires i < |fields|
  {
    if i > 0 && InSameUnion(fields, i) then CounterOffset(fields, i - 1) else Offset(fields, i) + fields[i].sizeOffset
  }

  // ---------- pb_field_iter_t ----------

  /** `pos` is an index into the entries; the terminator entry, with tag 0, follows the last one. */
  class FieldIter {
    const fields: seq<Field>
    const base: nat
    var pos: nat
    var requiredIndex: nat
    var pData: nat
    var pSize: int

    /** The pointers and the counter are those of the current entry, however it was reached. */
    ghost predicate Valid()
      reads this
    {
      && (forall i | 0 <= i < |fields| :: fields[i].tag != 0)
      && (fields == [] ==> pos == 0 && requiredIndex == 0)
      && (fields != [] ==>
        && pos < |fields|
        && requiredIndex == RequiredBefore(fields, pos)
        && pData == base + Offset(fields, pos)
        && pSize == base + CounterOffset(fields, pos))
    }

    /** iter->pos->tag */
    function CurrentTag(): nat
      reads this
    {
      if pos < |fields| then fields[pos].tag else 0
    }

    /** pb_field_iter_begin on a new iterator */
    constructor (fields: seq<Field>, base: nat)
      requires forall i | 0 <= i < |fields| :: fields[i].tag != 0
      ensures Valid() && this.fields == fields && this.base == base && pos == 0
    {
      this.fields := fields;
      this.base := base;
      pos := 0;
      requiredIndex := 0;
      pData := base + (if fields == [] then 0 else fields[0].dataOffset);
      pSize := base + (if fields == [] then 0 else fields[0].dataOffset + fields[0].sizeOffset);
    }

    /** pb_field_iter_begin on an iterator in use */
    method Begin() returns (ok: bool)
      requires forall i | 0 <= i < |fields| :: fields[i].tag != 0
      modifies this
      ensures Valid() && pos == 0
      ensures ok == (fields != [])
    {
      pos := 0;
      requiredIndex := 0;
      pData := base + (if fields == [] then 0 else fields[0].dataOffset);
      pSize := pData + (if fields == [] then 0 else fields[0].sizeOffset);
      ok := CurrentTag() != 0;
    }

    /** pb_field_iter_next: false when the iterator wrapped around. */
    method Next() returns (ok: bool)
      requires Valid()
      modifies this
      ensures Valid()
      ensures ok == (old(pos) + 1 < |fields|)
      ensures pos == if ok then old(pos) + 1 else 0
    {
      if CurrentTag() == 0 {
        return false;
      }
      var prev := fields[pos];
      pos := pos + 1;
      if CurrentTag() == 0 {
        var _ := Begin();
        return false;
      }
      var cur := fields[pos];
      if prev.htype.HOneof? && cur.htype.HOneof? && cur.dataOffset == SizeMax() {
        return true;
      }
      var prevSize := prev.dataSize;
      if prev.atype.AStatic? && prev.htype.HRepeated? {
        prevSize := prevSize * prev.arraySize;
      } else if prev.atype.APointer? {
        prevSize := POINTER_BYTES;
      }
      if prev.htype.HRequired? {
        requiredIndex := requiredIndex + 1;
      }
      pData := pData + prevSize + cur.dataOffset;
      pSize := pData + cur.sizeOffset;
      return true;
    }

    /** pb_field_iter_find: the first entry with this tag, going round from the current one. */
    method Find(tag: nat) returns (found: bool)
      requires Valid()
      modifies this
      ensures Valid()
      ensures fields == [] ==> found == (tag == 0)
      ensures fields != [] ==> found == (FindField(fields, tag).Some?)
      ensures found ==> CurrentTag() == tag
      ensures found && fields != [] ==> FirstGoingRound(fields, old(pos), pos, tag)
      ensures !found ==> pos == old(pos)
    {
      var start := pos;
      ghost var steps := 0;
      while true
        invariant Valid()
        invariant fields == [] ==> pos == start == 0 && steps == 0
        invariant fields != [] ==> steps < |fields| && start < |fields| && pos == GoRound(|fields|, start, steps)
        invariant forall k | 0 <= k < steps :: fields[GoRound(|fields|, start, k)].tag != tag
        decreases |fields| - steps
      {
        if CurrentTag() == tag {
          return true;
        }
        var _ := Next();
        steps := steps + 1;
        if pos == start {
          if fields != [] { AllVisited(fields, start, tag); }
          return false;
        }
      }
    }
  }

  /** The entry k steps after entry i. */
  function GoRound(n: nat, i: nat, k: nat): (j: nat)
    requires i < n && k <= n
    ensures k < n ==> j < n
    ensures k == n ==> j == i
  {
    if i + k < n then i + k else i + k - n
  }

  /** Steps from entry i to entry j. */
  function Distance(n: nat, i: nat, j: nat): (k: nat)
    requires i < n && j < n
    ensures k < n && GoRound(n, i, k) == j
  {
    if i <= j then j - i else j + n - i
  }

  ghost predicate FirstGoingRound(fields: seq<Field>, i: nat, j: nat, tag: nat) {
    && i < |fields| && j < |fields| && fields[j].tag == tag
    && forall k | 0 <= k < Distance(|fields|, i, j) :: fields[GoRound(|fields|, i, k)].tag != tag
  }

  lemma AllVisited(fields: seq<Field>, start: nat, tag: nat)
    requires start < |fields|
    requires forall k | 0 <= k < |fields| :: fields[GoRound(|fields|, start, k)].tag != tag
    ensures FindField(fields, tag) == None
  {
    forall j | 0 <= j < |fields| ensures fields[j].tag != tag {
      assert fields[GoRound(|fields|, start, Distance(|fields|, start, j))].tag != tag;
    }
  }

  /** With distinct tags the entry found does not depend on where the search started. */
  lemma FoundIsUnique(fields: seq<Field>, i: nat, j: nat, tag: nat)
    requires forall a, b | 0 <= a < b < |fields| :: fields[a].tag != fields[b].tag
    requires FirstGoingRound(fields, i, j, tag)
    ensures FindField(fields, tag) == Some(j)
  {
    var r := FindField(fields, tag);
    assert r.Some? && fields[r.value].tag == fields[j].tag;
  }

  // ---------- the macros ----------

  datatype Placement = First | Other | InUnion

  /** A struct member as the descriptor macros see it: its absolute offset, and that of its has_ flag,
      count or which_ tag when it has one. */
  datatype Decl = Decl(
    tag: nat, ltype: LType, htype: HType, atype: AType, placement: Placement,
    offset: nat, counter: Option<nat>, itemBytes: nat, arraySize: nat)

  function DeclBytes(d: Decl): nat {
    if d.atype.APointer? then POINTER_BYTES
    else if d.htype.HRepeated? then d.itemBytes * d.arraySize
    else d.itemBytes
  }

  /** offsetof(m1) - offsetof(m2) - sizeof(m2) */
  function Gap(prev: Decl, d: Decl): int {
    d.offset - prev.offset - DeclBytes(prev)
  }

  /** A C struct whose entries fit pb_field_t: members in order, union members at one address with one which_ tag,
      everything within pb_size_t, and flags, counts and tags within pb_ssize_t of their member. */
  ghost predicate LayoutOk(decls: seq<Decl>) {
    forall i | 0 <= i < |decls| :: PlacedOk(decls, i) && EntryFits(decls[i])
  }

  predicate EntryFits(d: Decl) {
    && (d.placement.First? ==> d.offset <= SizeMax())
    && d.tag <= SizeMax() && d.itemBytes <= SizeMax() && d.arraySize <= SizeMax()
    && (d.counter.Some? ==> -(SizeMax() / 2) - 1 <= d.counter.value - d.offset <= SizeMax() / 2)
  }

  ghost predicate PlacedOk(decls: seq<Decl>, i: nat)
    requires i < |decls|
  {
    match decls[i].placement
    case First => i == 0
    case Other => i > 0 && 0 <= Gap(decls[i - 1], decls[i]) <= SizeMax()
    case InUnion => i > 0 && decls[i].htype.HOneof? && decls[i].htype == decls[i - 1].htype
                    && decls[i].offset == decls[i - 1].offset && decls[i].counter == decls[i - 1].counter
  }

  /** PB_FIELD, PB_ONEOF_FIELD and PB_REPEATED_FIXED_COUNT. */
  function Describe(decls: seq<Decl>, i: nat): Field
    requires i < |decls| && LayoutOk(decls)
  {
    assert PlacedOk(decls, i);
    var d := decls[i];
    var dataOffset := match d.placement
      case First => d.offset
      case Other => Gap(decls[i - 1], d)
      case InUnion => SizeMax();
    var sizeOffset := if d.counter.Some? then d.counter.value - d.offset else 0;
    Field(d.tag, d.ltype, d.htype, d.atype, dataOffset, sizeOffset, d.itemBytes, d.arraySize, None)
  }

  function DescribeAll(decls: seq<Decl>): (fields: seq<Field>)
    requires LayoutOk(decls)
    ensures |fields| == |decls|
    ensures forall i | 0 <= i < |decls| :: fields[i] == Describe(decls, i)
  {
    seq(|decls|, i requires 0 <= i < |decls| => Describe(decls, i))
  }

  /** Two unions, one right after the other, whose distance happens to be the marker for "same union". */
  ghost predicate LooksLikeSameUnion(decls: seq<Decl>, i: nat) {
    && 0 < i < |decls| && decls[i].placement.Other?
    && decls[i - 1].htype.HOneof? && decls[i].htype.HOneof?
    && Gap(decls[i - 1], decls[i]) == SizeMax()
  }

  lemma {:induction false} OffsetsUpTo(decls: seq<Decl>, i: nat)
    requires LayoutOk(decls) && i < |decls|
    requires forall j | 0 <= j <= i :: !LooksLikeSameUnion(decls, j)
    ensures Offset(DescribeAll(decls), i) == decls[i].offset
    ensures decls[i].counter.Some? ==> CounterOffset(DescribeAll(decls), i) == decls[i].counter.value
  {
    if i > 0 {
      OffsetsUpTo(decls, i - 1);
      assert DescribeAll(decls)[i - 1] == Describe(decls, i - 1);
      assert MemberBytes(DescribeAll(decls)[i - 1]) == DeclBytes(decls[i - 1]);
    }
    assert DescribeAll(decls)[i] == Describe(decls, i);
    assert PlacedOk(decls, i) && !LooksLikeSameUnion(decls, i);
  }

  lemma {:induction false} FirstMisplaced(decls: seq<Decl>, i: nat)
    requires LayoutOk(decls) && LooksLikeSameUnion(decls, i)
    requires forall j | 0 <= j < i :: !LooksLikeSameUnion(decls, j)
    ensures Offset(DescribeAll(decls), i) != decls[i].offset
  {
    OffsetsUpTo(decls, i - 1);
    assert DescribeAll(decls)[i - 1] == Describe(decls, i - 1);
    assert DescribeAll(decls)[i] == Describe(decls, i);
    assert PlacedOk(decls, i);
  }

  /** The iterator visits every member at its offset in the struct, and finds its flag, count or tag,
      exactly when no two adjacent unions lie PB_SIZE_MAX bytes apart. */
  lemma OffsetsInvertMacros(decls: seq<Decl>)
    requires LayoutOk(decls)
    ensures (forall i | 0 <= i < |decls| :: Offset(DescribeAll(decls), i) == decls[i].offset)
       <==> (forall i | 0 <= i < |decls| :: !LooksLikeSameUnion(decls, i))
    ensures (forall i | 0 <= i < |decls| :: !LooksLikeSameUnion(decls, i)) ==>
      forall i | 0 <= i < |decls| && decls[i].counter.Some? ::
        CounterOffset(DescribeAll(decls), i) == decls[i].counter.value
  {
    if i :| 0 <= i < |decls| && LooksLikeSameUnion(decls, i) {
      var j := LeastLookalike(decls, i);
      FirstMisplaced(decls, j);
    } else {
      forall i | 0 <= i < |decls|
        ensures Offset(DescribeAll(decls), i) == decls[i].offset
        ensures decls[i].counter.Some? ==> CounterOffset(DescribeAll(decls), i) == decls[i].counter.value
      {
        OffsetsUpTo(decls, i);
      }
    }
  }

  lemma LeastLookalike(decls: seq<Decl>, i: nat) returns (j: nat)
    requires LooksLikeSameUnion(decls, i)
    ensures j <= i && LooksLikeSameUnion(decls, j)
    ensures forall k | 0 <= k < j :: !LooksLikeSameUnion(decls, k)
  {
    if k :| 0 <= k < i && LooksLikeSameUnion(decls, k) {
      j := LeastLookalike(decls, k);
    } else {
      j := i;
    }
  }

  /** struct {
        pb_size_t which_a; union { char text[PB_SIZE_MAX + 1 - sizeof(pb_size_t)]; bool flag; } a;
        pb_size_t which_b; union { bool flag; } b;
      } */
  function FarUnions(): seq<Decl> {
    var second := SizeMax() + 1 + SizeBytes();
    [Decl(1, LString, HOneof(0), AStatic, First, SizeBytes(), Some(0), SizeMax() + 1 - SizeBytes(), 1),
     Decl(2, LBool, HOneof(0), AStatic, InUnion, SizeBytes(), Some(0), 1, 1),
     Decl(3, LBool, HOneof(1), AStatic, Other, second, Some(SizeMax() + 1), 1, 1)]
  }

  /** The iterator looks for the second union's member where the first union's members are. */
  lemma FarUnionsConfused()
    ensures LayoutOk(FarUnions()) && LooksLikeSameUnion(FarUnions(), 2)
    ensures Offset(DescribeAll(FarUnions()), 2) == FarUnions()[0].offset != FarUnions()[2].offset
  {
    var decls := FarUnions();
    assert PlacedOk(decls, 0) && PlacedOk(decls, 1) && PlacedOk(decls, 2);
    var fields := DescribeAll(decls);
    assert fields[0] == Describe(decls, 0) && fields[1] == Describe(decls, 1) && fields[2] == Describe(decls, 2);
    assert InSameUnion(fields, 1) && InSameUnion(fields, 2);
  }
}
