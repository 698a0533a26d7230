/**
 The bitmap of required fields (fields_seen): two 32-bit words, one bit for each of the first 64
 required fields, compared as whole words at the end of a message.
 */
module RequiredFields {
  import opened Bytes
  import opened Varint
  import opened Schema
  import opened Decoding
  import opened FieldIterator

  /** x >> k */
  function Shr(x: nat, k: nat): nat
    decreases k
  {
    if k == 0 then x else Shr(x / 2, k - 1)
  }

  /** The k-th required field occurred. */
  ghost predicate OccurredAt(fields: seq<Field>, seen: set<nat>, k: nat) {
    exists i :: 0 <= i < |fields| && fields[i].htype.HRequired? && RequiredBefore(fields, i) == k && i in seen
  }

  /** All required fields from the lo-th up to the hi-th, exclusive, occurred. */
  ghost predicate OccurredBetween(fields: seq<Field>, seen: set<nat>, lo: nat, hi: nat) {
    forall k: nat | lo <= k < hi :: OccurredAt(fields, seen, k)
  }

  /** Bit k of the bitmap. */
  ghost predicate BitAt(words: seq<nat>, k: nat)
    requires |words| == 2 && k < 64
  {
    Bit(words[k / 32], k % 32)
  }

  /** The bitmap says which of the first 64 required fields occurred, and nothing else. */
  ghost predicate BitmapOk(words: seq<nat>, fields: seq<Field>, seen: set<nat>) {
    && |words| == 2
    && (forall k: nat | k < 64 :: BitAt(words, k) <==> OccurredAt(fields, seen, k))
    && NoHighBits(words[0], 32) && NoHighBits(words[1], 32)
  }

  lemma {:induction false} NoBitsInZero(n: nat)
    ensures NoHighBits(0, n) && forall k: nat :: !Bit(0, k)
  {
    forall k: nat ensures !Bit(0, k) { BitOfZero(k); }
  }

  lemma {:induction false} RequiredBeforeMonotone(fields: seq<Field>, i: nat, j: nat)
    requires i <= j <= |fields|
    ensures RequiredBefore(fields, i) <= RequiredBefore(fields, j)
    ensures i < j && fields[i].htype.HRequired? ==> RequiredBefore(fields, i) < RequiredBefore(fields, j)
    decreases j - i
  {
    if i < j { RequiredBeforeMonotone(fields, i, j - 1); }
  }

  /** `fields_seen[index >> 5] |= 1 << (index & 31)` */
  function Mark(words: seq<nat>, index: nat): seq<nat>
    requires |words| == 2 && index < 64
  {
    words[index / 32 := Or(words[index / 32], Pow2(index % 32))]
  }

  lemma OrMark(x: nat, j: nat)
    requires j < 32 && NoHighBits(x, 32)
    ensures NoHighBits(Or(x, Pow2(j)), 32)
    ensures forall k: nat :: Bit(Or(x, Pow2(j)), k) <==> Bit(x, k) || k == j
  {
    forall k: nat ensures Bit(Or(x, Pow2(j)), k) <==> Bit(x, k) || k == j {
      BitOfOr(x, Pow2(j), k);
      BitOfPow2(j, k);
    }
  }

  lemma OccurredStep(fields: seq<Field>, seen: set<nat>, i: nat, k: nat)
    requires i < |fields|
    ensures OccurredAt(fields, seen + {i}, k)
       <==> OccurredAt(fields, seen, k) || (fields[i].htype.HRequired? && RequiredBefore(fields, i) == k)
  {}

  /** Recording entry i keeps the bitmap right. */
  lemma MarkKeepsBitmap(words: seq<nat>, fields: seq<Field>, seen: set<nat>, i: nat)
    requires i < |fields| && BitmapOk(words, fields, seen)
    ensures var k := RequiredBefore(fields, i);
            BitmapOk(if fields[i].htype.HRequired? && k < 64 then Mark(words, k) else words, fields, seen + {i})
  {
    hide OccurredAt, Or, Pow2, Bit;
    var after := seen + {i};
    forall k: nat
      ensures OccurredAt(fields, seen + {i}, k)
         <==> OccurredAt(fields, seen, k) || (fields[i].htype.HRequired? && RequiredBefore(fields, i) == k)
    {
      OccurredStep(fields, seen, i, k);
    }
    var index := RequiredBefore(fields, i);
    if fields[i].htype.HRequired? && index < 64 {
      OrMark(words[index / 32], index % 32);
      forall k: nat | k < 64 ensures BitAt(Mark(words, index), k) <==> BitAt(words, k) || k == index {
        assert k == 32 * (k / 32) + k % 32 && index == 32 * (index / 32) + index % 32;
      }
    }
  }

  // ---------- the comparison at the end ----------

  lemma {:induction false} ShrOnes(n: nat, k: nat)
    requires k <= n
    ensures Shr(Pow2(n) - 1, k) == Pow2(n - k) - 1
    decreases k
  {
    if k > 0 {
      assert (Pow2(n) - 1) / 2 == Pow2(n - 1) - 1;
      ShrOnes(n - 1, k - 1);
    }
  }

  /** The word w of the bitmap is complete for n required fields. */
  ghost predicate WordFull(words: seq<nat>, w: nat, n: nat)
    requires w < |words|
  {
    words[w] == Pow2(n) - 1
  }

  lemma WordComplete(words: seq<nat>, fields: seq<Field>, seen: set<nat>, w: nat, n: nat)
    requires BitmapOk(words, fields, seen) && w < 2 && n <= 32
    requires n < 32 ==> RequiredBefore(fields, |fields|) == 32 * w + n
    ensures WordFull(words, w, n) <==> OccurredBetween(fields, seen, 32 * w, 32 * w + n)
  {
    hide Pow2, Bit, RequiredBefore;
    forall k: nat | k < 32 ensures Bit(words[w], k) <==> OccurredAt(fields, seen, 32 * w + k) {
      WordBit(words, w, k);
    }
    forall k: nat | n <= k < 32 ensures !Bit(words[w], k) {
      NoneBeyond(fields, seen, 32 * w + k);
    }
    AllOnes(words[w], n);
    if LowBitsSet(words[w], n) {
      forall k: nat | 32 * w <= k < 32 * w + n ensures OccurredAt(fields, seen, k) {
        assert Bit(words[w], k - 32 * w);
      }
    }
    if OccurredBetween(fields, seen, 32 * w, 32 * w + n) {
      forall k: nat | k < n ensures Bit(words[w], k) {
        assert OccurredAt(fields, seen, 32 * w + k);
      }
    }
  }

  lemma WordBit(words: seq<nat>, w: nat, k: nat)
    requires |words| == 2 && w < 2 && k < 32
    ensures BitAt(words, 32 * w + k) == Bit(words[w], k)
  {
    assert (32 * w + k) / 32 == w && (32 * w + k) % 32 == k;
  }

  lemma NoneBeyond(fields: seq<Field>, seen: set<nat>, k: nat)
    requires RequiredBefore(fields, |fields|) <= k
    ensures !OccurredAt(fields, seen, k)
  {
    forall i | 0 <= i < |fields| && fields[i].htype.HRequired? ensures RequiredBefore(fields, i) != k {
      RequiredBeforeMonotone(fields, i, |fields|);
    }
  }

  lemma OccurredBelowIsRequiredSeen(fields: seq<Field>, seen: set<nat>, n: nat)
    requires n == (var all := RequiredBefore(fields, |fields|); if all > 64 then 64 else all)
    ensures OccurredBetween(fields, seen, 0, n) <==> RequiredSeen(fields, seen)
  {
    if OccurredBetween(fields, seen, 0, n) {
      forall i | 0 <= i < |fields| && fields[i].htype.HRequired? && RequiredBefore(fields, i) < 64 ensures i in seen {
        RequiredBeforeMonotone(fields, i, |fields|);
        var k := RequiredBefore(fields, i);
        assert OccurredAt(fields, seen, k);
        var j :| 0 <= j < |fields| && fields[j].htype.HRequired? && RequiredBefore(fields, j) == k && j in seen;
        if i < j { RequiredBeforeMonotone(fields, i, j); }
        if j < i { RequiredBeforeMonotone(fields, j, i); }
      }
    }
    if RequiredSeen(fields, seen) {
      forall k: nat | k < n ensures OccurredAt(fields, seen, k) {
        var i := KthRequired(fields, k, |fields|);
        assert i in seen;
      }
    }
  }

  lemma {:induction false} KthRequired(fields: seq<Field>, k: nat, bound: nat) returns (i: nat)
    requires bound <= |fields| && k < RequiredBefore(fields, bound)
    ensures i < bound && fields[i].htype.HRequired? && RequiredBefore(fields, i) == k
    decreases bound
  {
    if k < RequiredBefore(fields, bound - 1) {
      i := KthRequired(fields, k, bound - 1);
    } else {
      i := bound - 1;
    }
  }

  // ---------- what the bitmap is about ----------

  /** The entries that have a record in s, in order. */
  function EntriesOf(fields: seq<Field>, s: seq<byte>, st: State): seq<nat>
    decreases |s|
  {
    if s == [] then []
    else match DecodeTag(s)
      case TagError => []
      case Terminator(_) => []
      case Tag(tag, wireType, rest) =>
        match DecodeRecord(fields, tag, wireType, rest, st)
        case None => []
        case Some((st', rest')) =>
          (if FindField(fields, tag).Some? then [FindField(fields, tag).value] else []) + EntriesOf(fields, rest', st')
  }

  lemma {:induction false} SeenIsEntries(fields: seq<Field>, s: seq<byte>, st: State)
    requires DecodeRecords(fields, s, st).Some?
    ensures DecodeRecords(fields, s, st).value.st.seen == st.seen + (set i | i in EntriesOf(fields, s, st))
    decreases |s|
  {
    hide DecodeEntry, Skip, DecodeBool;
    if s != [] && DecodeTag(s).Tag? {
      var Tag(tag, wireType, rest) := DecodeTag(s);
      var i := FindField(fields, tag);
      if i.Some? { EntryAddsItself(fields, i.value, wireType, rest, st); }
      var (st', rest') := DecodeRecord(fields, tag, wireType, rest, st).value;
      SeenIsEntries(fields, rest', st');
    }
  }

  lemma EntryAddsItself(fields: seq<Field>, i: nat, wireType: nat, s: seq<byte>, st: State)
    requires i < |fields| && DecodeEntry(fields, i, wireType, s, st).Some?
    ensures DecodeEntry(fields, i, wireType, s, st).value.0.seen == st.seen + {i}
  {
    hide DecodeSlot, DecodeValue, FixedComplete;
  }

  /** If every record decodes and the arrays without counter are complete, a message is accepted exactly when
      each of the first 64 required fields has a record. */
  lemma AcceptedIffRequiredOccur(fields: seq<Field>, s: seq<byte>, m: Message)
    requires DecodeRecords(fields, s, Start(m)).Some?
    requires FixedComplete(fields, DecodeRecords(fields, s, Start(m)).value.st)
    ensures DecodeNoInit(fields, s, m).Some?
       <==> forall i | 0 <= i < |fields| && fields[i].htype.HRequired? && RequiredBefore(fields, i) < 64 ::
              i in EntriesOf(fields, s, Start(m))
  {
    hide DecodeRecords, EntriesOf, FixedComplete;
    SeenIsEntries(fields, s, Start(m));
  }

  // ---------- the check itself ----------

  /** req_field_count: the iterator is driven to the end of the entries, where it wraps around. */
  method CountRequired(iter: FieldIter) returns (count: nat)
    requires iter.Valid()
    modifies iter
    ensures iter.Valid()
    ensures count == RequiredBefore(iter.fields, |iter.fields|)
  {
    var lastRequired := false;
    count := 0;
    var more := true;
    while more
      invariant iter.Valid()
      invariant !more ==> iter.pos == 0
      invariant !more && iter.fields != [] ==>
        && count == RequiredBefore(iter.fields, |iter.fields| - 1)
        && lastRequired == iter.fields[|iter.fields| - 1].htype.HRequired?
      invariant iter.fields == [] ==> count == 0
      decreases more, |iter.fields| - iter.pos
    {
      count := iter.requiredIndex;
      lastRequired := iter.CurrentTag() == 0 || iter.fields[iter.pos].htype.HRequired?;
      more := iter.Next();
    }
    if lastRequired && iter.CurrentTag() != 0 {
      count := count + 1;
    }
  }

  /** The end of pb_decode_noinit: whole words are compared with all ones, the last one with the rest. */
  method AllRequiredSeen(iter: FieldIter, fieldsSeen: array<nat>, ghost seen: set<nat>) returns (ok: bool)
    requires iter.Valid() && fieldsSeen.Length == 2 && BitmapOk(fieldsSeen[..], iter.fields, seen)
    modifies iter
    ensures iter.Valid()
    ensures ok == RequiredSeen(iter.fields, seen)
  {
    hide BitmapOk, Pow2, OccurredAt, RequiredSeen, Shr;
    ghost var words := fieldsSeen[..];
    var count := CountRequired(iter);
    if count > 64 {
      count := 64;
    }
    OccurredBelowIsRequiredSeen(iter.fields, seen, count);
    AllBits();
    for i := 0 to count / 32
      invariant fieldsSeen[..] == words && iter.Valid()
      invariant OccurredBetween(iter.fields, seen, 0, 32 * i)
    {
      WordComplete(words, iter.fields, seen, i, 32);
      OccurredSplit(iter.fields, seen, 32 * i, 32 * i + 32, count);
      if fieldsSeen[i] != 0xFFFF_FFFF {
        return false;
      }
    }
    var w, rest := count / 32, count % 32;
    if rest != 0 {
      WordComplete(words, iter.fields, seen, w, rest);
      OccurredSplit(iter.fields, seen, 32 * w, 32 * w + rest, count);
      ShrOnes(32, 32 - rest);
      if fieldsSeen[w] != Shr(0xFFFF_FFFF, 32 - rest) {
        return false;
      }
    }
    return true;
  }

  lemma AllBits()
    ensures Pow2(32) - 1 == 0xFFFF_FFFF
  {
    Pow2Of32();
  }

  lemma OccurredSplit(fields: seq<Field>, seen: set<nat>, lo: nat, hi: nat, n: nat)
    requires lo <= hi <= n && OccurredBetween(fields, seen, 0, lo)
    ensures OccurredBetween(fields, seen, 0, hi) <==> OccurredBetween(fields, seen, lo, hi)
    ensures OccurredBetween(fields, seen, 0, n) ==> OccurredBetween(fields, seen, 0, hi)
  {
    hide OccurredAt;
  }
}
