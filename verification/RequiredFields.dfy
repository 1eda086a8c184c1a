/**
 The bitmap of required fields in pb_decode_noinit: two 32-bit words stand for the set of
 required fields that have occurred, and the word comparisons at the end decide exactly
 whether one of the first 64 is missing.
 */
module RequiredFields {
  import opened Bits
  import Varint
  import opened Descriptor
  import opened FieldIterator
  import opened Decoding

  /** The required field number r (counting required fields only) has occurred. */
  ghost predicate SeenRank(d: seq<Field>, seen: set<nat>, r: nat) {
    exists i :: 0 <= i < |d| && i in seen && d[i].htype.Required? && RequiredBefore(d, i) == r
  }

  /** Bit k of the word says whether required field number base + k has occurred. */
  ghost predicate WordTracks(d: seq<Field>, seen: set<nat>, w: nat, base: nat) {
    forall k: nat :: Bit(w, k) <==> k < 32 && SeenRank(d, seen, base + k)
  }

  ghost predicate BitmapTracks(d: seq<Field>, seen: set<nat>, words: seq<nat>) {
    |words| == 2 && WordTracks(d, seen, words[0], 0) && WordTracks(d, seen, words[1], 32)
  }

  lemma EmptyBitmap(d: seq<Field>)
    ensures BitmapTracks(d, {}, [0, 0])
  {
    forall k: nat ensures !Bit(0, k) { ZeroHasNoBits(k); }
  }

  lemma {:induction false} RankMonotone(d: seq<Field>, i: nat, j: nat)
    requires i <= j <= |d|
    ensures RequiredBefore(d, i) <= RequiredBefore(d, j)
    ensures i < j && d[i].htype.Required? ==> RequiredBefore(d, i) < RequiredBefore(d, j)
  {
    if i < j { RankMonotone(d, i, j - 1); }
  }

  lemma RankInjective(d: seq<Field>, i: nat, j: nat)
    requires i < |d| && j < |d| && d[i].htype.Required? && d[j].htype.Required?
    requires RequiredBefore(d, i) == RequiredBefore(d, j)
    ensures i == j
  {
    if i < j { RankMonotone(d, i, j); } else if j < i { RankMonotone(d, j, i); }
  }

  lemma {:induction false} RankExists(d: seq<Field>, n: nat, r: nat) returns (i: nat)
    requires n <= |d| && r < RequiredBefore(d, n)
    ensures i < n && d[i].htype.Required? && RequiredBefore(d, i) == r
    decreases n
  {
    if d[n - 1].htype.Required? && RequiredBefore(d, n - 1) == r {
      i := n - 1;
    } else {
      i := RankExists(d, n - 1, r);
    }
  }

  lemma SeenRankGrows(d: seq<Field>, seen: set<nat>, i: nat, r: nat)
    requires i < |d|
    ensures SeenRank(d, seen + {i}, r) <==>
              SeenRank(d, seen, r) || (d[i].htype.Required? && RequiredBefore(d, i) == r)
  {
    hide RequiredBefore;
    if SeenRank(d, seen, r) {
      var j :| 0 <= j < |d| && j in seen && d[j].htype.Required? && RequiredBefore(d, j) == r;
      assert j in seen + {i};
    }
    if d[i].htype.Required? && RequiredBefore(d, i) == r { assert i in seen + {i}; }
  }

  /** Setting the bit of field i in its word. */
  lemma MarkInWord(d: seq<Field>, seen: set<nat>, w: nat, base: nat, i: nat)
    requires i < |d| && d[i].htype.Required? && WordTracks(d, seen, w, base)
    requires base <= RequiredBefore(d, i) < base + 32
    ensures WordTracks(d, seen + {i}, Or(w, Pow2(RequiredBefore(d, i) - base)), base)
  {
    var bit := RequiredBefore(d, i) - base;
    forall k: nat ensures Bit(Or(w, Pow2(bit)), k) <==> k < 32 && SeenRank(d, seen + {i}, base + k) {
      OrBit(w, Pow2(bit), k);
      PowerBit(bit, k);
      SeenRankGrows(d, seen, i, base + k);
      hide Bit, Or, Pow2, SeenRank, RequiredBefore;
    }
    hide Bit, Or, Pow2, SeenRank, RequiredBefore;
  }

  /** A field whose number lies elsewhere leaves the word alone. */
  lemma MarkElsewhere(d: seq<Field>, seen: set<nat>, w: nat, base: nat, i: nat)
    requires i < |d| && WordTracks(d, seen, w, base)
    requires RequiredBefore(d, i) < base || base + 32 <= RequiredBefore(d, i)
    ensures WordTracks(d, seen + {i}, w, base)
  {
    forall k: nat ensures Bit(w, k) <==> k < 32 && SeenRank(d, seen + {i}, base + k) {
      SeenRankGrows(d, seen, i, base + k);
      hide Bit, SeenRank, RequiredBefore;
    }
    hide Bit, SeenRank, RequiredBefore;
  }

  /** The update of fields_seen when required field i occurs. */
  method MarkRequired(words: seq<nat>, index: nat, ghost d: seq<Field>, ghost seen: set<nat>, ghost i: nat)
    returns (r: seq<nat>)
    requires i < |d| && d[i].htype.Required? && index == RequiredBefore(d, i)
    requires BitmapTracks(d, seen, words)
    ensures BitmapTracks(d, seen + {i}, r)
  {
    hide WordTracks, RequiredBefore, Or, Pow2;
    r := words;
    if index < PB_MAX_REQUIRED_FIELDS {
      r := words[index / 32 := Or(words[index / 32], Pow2(index % 32))];
      if index < 32 {
        MarkInWord(d, seen, words[0], 0, i);
        MarkElsewhere(d, seen, words[1], 32, i);
      } else {
        MarkElsewhere(d, seen, words[0], 0, i);
        MarkInWord(d, seen, words[1], 32, i);
      }
    } else {
      MarkElsewhere(d, seen, words[0], 0, i);
      MarkElsewhere(d, seen, words[1], 32, i);
    }
  }

  // ---------- The final check ----------

  ghost predicate RanksSeen(d: seq<Field>, seen: set<nat>, from: nat, to: nat) {
    forall r :: from <= r < to ==> SeenRank(d, seen, r)
  }

  /** The first 64 required fields have occurred exactly when their numbers have. */
  lemma RanksAreFields(d: seq<Field>, seen: set<nat>, count: nat)
    requires count == if RequiredBefore(d, |d|) > PB_MAX_REQUIRED_FIELDS then PB_MAX_REQUIRED_FIELDS
            else RequiredBefore(d, |d|)
    ensures RanksSeen(d, seen, 0, count) <==> RequiredSeen(d, seen)
  {
    hide RequiredBefore;
    if RanksSeen(d, seen, 0, count) {
      forall i | 0 <= i < |d| && d[i].htype.Required? && RequiredBefore(d, i) < PB_MAX_REQUIRED_FIELDS
          ensures i in seen {
        RankMonotone(d, i, |d|);
        assert SeenRank(d, seen, RequiredBefore(d, i));
        var j :| 0 <= j < |d| && j in seen && d[j].htype.Required? && RequiredBefore(d, j) == RequiredBefore(d, i);
        RankInjective(d, i, j);
      }
    }
    if RequiredSeen(d, seen) {
      forall r | 0 <= r < count ensures SeenRank(d, seen, r) {
        var i := RankExists(d, |d|, r);
        assert i in seen;
      }
    }
  }

  /** No number beyond the total can have occurred. */
  lemma NoRankBeyond(d: seq<Field>, seen: set<nat>, r: nat)
    requires r >= RequiredBefore(d, |d|)
    ensures !SeenRank(d, seen, r)
  {
    if SeenRank(d, seen, r) {
      var i :| 0 <= i < |d| && i in seen && d[i].htype.Required? && RequiredBefore(d, i) == r;
      RankMonotone(d, i, |d|);
    }
  }

  /** Comparing a word with a mask of n bits tests n numbers, provided no others can be set. */
  lemma WordTest(d: seq<Field>, seen: set<nat>, w: nat, base: nat, n: nat)
    requires n <= 32 && WordTracks(d, seen, w, base)
    requires n == 32 || base + n == RequiredBefore(d, |d|)
    ensures w == Pow2(n) - 1 <==> RanksSeen(d, seen, base, base + n)
  {
    hide Pow2, RequiredBefore;
    if w == Pow2(n) - 1 {
      MaskIsFull(n);
      hide Bit, SeenRank;
      assert FullMask(w, n);
      forall r | base <= r < base + n ensures SeenRank(d, seen, r) {
        assert Bit(w, r - base);
      }
    }
    if RanksSeen(d, seen, base, base + n) {
      forall k: nat ensures Bit(w, k) <==> k < n {
        if n < 32 && k >= n { NoRankBeyond(d, seen, base + k); }
        if k < n { assert SeenRank(d, seen, base + k); }
        hide Bit, SeenRank;
      }
      FullMaskIsMask(w, n);
    }
  }

  /** `allbits >> (32 - n)` is the mask of n bits. */
  lemma ShiftedAllBits(n: nat)
    requires n <= 32
    ensures (U32 - 1) / Pow2(32 - n) == Pow2(n) - 1
  {
    var p, q := Pow2(n), Pow2(32 - n);
    Pow2Add(n, 32 - n);
    assert U32 == p * q by { Pow2Words(); }
    hide Pow2;
    MaskQuotient(p, q);
  }

  lemma MaskQuotient(p: nat, q: nat)
    requires p >= 1 && q >= 1
    ensures p * q >= 1 && (p * q - 1) / q == p - 1
  {
    var n := (p - 1) * q + (q - 1);
    assert p * q == (p - 1) * q + q;
    var k, r := n / q, n % q;
    assert n == k * q + r;
    Varint.QuotientUnique(p - 1, q - 1, k, r, q);
  }

  /** The end of pb_decode_noinit: count the required fields, then compare the words. */
  method CheckRequired(iter: FieldIter, words: seq<nat>, ghost seen: set<nat>) returns (ok: bool)
    requires iter.Valid() && |words| == 2
    requires iter.start != [] ==> BitmapTracks(iter.start, seen, words)
    modifies iter
    ensures ok <==> RequiredSeen(iter.start, seen)
  {
    ghost var d := iter.start;
    hide RequiredSeen, WordTracks, Pow2;
    var reqFieldCount := CountRequired(iter);
    if reqFieldCount > PB_MAX_REQUIRED_FIELDS { reqFieldCount := PB_MAX_REQUIRED_FIELDS; }
    RanksAreFields(d, seen, reqFieldCount);
    hide RequiredBefore, SeenRank;
    assert Pow2(32) == U32 by { Pow2Words(); }
    var whole := reqFieldCount / 32;
    for i := 0 to whole
      invariant RanksSeen(d, seen, 0, 32 * i)
    {
      WordTest(d, seen, words[i], 32 * i, 32);
      if words[i] != U32 - 1 {
        assert !RanksSeen(d, seen, 32 * i, 32 * i + 32);
        return false;
      }
    }
    var bits := reqFieldCount % 32;
    if bits != 0 {
      WordTest(d, seen, words[whole], 32 * whole, bits);
      ShiftedAllBits(bits);
      if words[whole] != (U32 - 1) / Pow2(32 - bits) {
        assert !RanksSeen(d, seen, 32 * whole, reqFieldCount);
        return false;
      }
    }
    ok := true;
  }

  /** Seek to the last field; it counts too if it is required. */
  method CountRequired(iter: FieldIter) returns (count: nat)
    requires iter.Valid()
    modifies iter
    ensures count == RequiredBefore(iter.start, |iter.start|)
  {
    var lastRequired := true;
    var more := true;
    count := 0;
    while more
      invariant iter.Valid()
      invariant !more && iter.start == [] ==> count == 0 && lastRequired
      invariant !more && iter.start != [] ==>
                  count == RequiredBefore(iter.start, |iter.start| - 1)
                  && lastRequired == iter.start[|iter.start| - 1].htype.Required?
      decreases more, |iter.start| - iter.pos
    {
      count := iter.requiredFieldIndex;
      lastRequired := iter.start == [] || iter.start[iter.pos].htype.Required?;
      more := iter.Next();
    }
    if lastRequired && iter.start != [] { count := count + 1; }
  }
}
