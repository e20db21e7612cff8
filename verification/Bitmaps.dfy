/** The bitmap of bitmap.hpp: an array of machine words, searched a word at a time under masks. */
module Bitmaps {
  import opened Powers
  import opened Words

  function Smaller(x: nat, y: nat): nat {
    if x < y then x else y
  }

  /** Whether bit b is set in words of 2^log2 bits. */
  predicate Has(words: seq<nat>, log2: nat, b: nat) {
    DivPow2(b, log2) < |words| && Bit(words[DivPow2(b, log2)], ModPow2(b, log2))
  }

  /** How many bits in [lo, hi) are set. */
  function Count(words: seq<nat>, log2: nat, lo: nat, hi: nat): nat
    decreases hi
  {
    if hi <= lo then 0 else Count(words, log2, lo, hi - 1) + (if Has(words, log2, hi - 1) then 1 else 0)
  }

  /** The end of the run of bits from `curr` that share its word. */
  function ChunkEnd(log2: nat, curr: nat, last: nat): nat {
    Smaller(AlignDown(curr + Pow2(log2), log2), last)
  }

  /** align on signed words: clearing low bits rounds down, also below zero. */
  function AlignSigned(v: int, log2: nat): int {
    (v + Pow2(log2) - 1) / Pow2(log2) * Pow2(log2)
  }

  /** The start of the run of bits up to `curr` that share the word of its last bit. */
  function ChunkStart(log2: nat, curr: nat, last: nat): nat {
    var start := AlignSigned(curr - Pow2(log2), log2);
    if start < last then last else start
  }

  /** Aligning up what may lie below zero comes to aligning down the last bit. */
  lemma SignedStart(log2: nat, curr: nat)
    requires curr > 0
    ensures AlignSigned(curr - Pow2(log2), log2) == AlignDown(curr - 1, log2)
  {
    DivUnique(curr - 1, Pow2(log2), DivPow2(curr - 1, log2));
    AlignDownBit(curr - 1, log2, 0);
  }

  /** The bits in [lo, hi) share a word, where they are the digits from lo's on. */
  ghost predicate OneWord(log2: nat, lo: nat, hi: nat) {
    && lo < hi
    && ModPow2(lo, log2) + hi - lo <= Pow2(log2)
    && forall b | lo <= b < hi ::
         DivPow2(b, log2) == DivPow2(lo, log2) && ModPow2(b, log2) == ModPow2(lo, log2) + b - lo
  }

  lemma InOneWord(log2: nat, lo: nat, hi: nat)
    requires lo < hi && ModPow2(lo, log2) + hi - lo <= Pow2(log2)
    ensures OneWord(log2, lo, hi)
  {
    forall b | lo <= b < hi
      ensures DivPow2(b, log2) == DivPow2(lo, log2) && ModPow2(b, log2) == ModPow2(lo, log2) + b - lo
    {
      DivPow2Unique(b, log2, DivPow2(lo, log2));
    }
  }

  lemma ChunkIsOneWord(log2: nat, curr: nat, last: nat)
    requires curr < last
    ensures curr < ChunkEnd(log2, curr, last) <= last && OneWord(log2, curr, ChunkEnd(log2, curr, last))
  {
    MulDistributes(DivPow2(curr, log2), 1, Pow2(log2));
    DivPow2Unique(curr + Pow2(log2), log2, DivPow2(curr, log2) + 1);
    InOneWord(log2, curr, ChunkEnd(log2, curr, last));
  }

  lemma ChunkBackIsOneWord(log2: nat, curr: nat, last: nat)
    requires last < curr
    ensures last <= ChunkStart(log2, curr, last) < curr && OneWord(log2, ChunkStart(log2, curr, last), curr)
  {
    var k := DivPow2(curr - 1, log2);
    SignedStart(log2, curr);
    AlignDownBit(curr - 1, log2, 0);
    DivPow2Unique(ChunkStart(log2, curr, last), log2, k);
    InOneWord(log2, ChunkStart(log2, curr, last), curr);
  }

  lemma CapacityIndex(log2: nat, capacity: nat, b: nat)
    requires b < capacity
    ensures DivPow2(b, log2) < DivPow2(capacity + Pow2(log2) - 1, log2)
  {
    var q := DivPow2(capacity + Pow2(log2) - 1, log2);
    MulDistributes(q, 1, Pow2(log2));
    MulKeepsOrder(DivPow2(b, log2), q, Pow2(log2));
  }

  // ---------------------------------------------------------------------------------------------- one word at a time

  /** The word of [lo, hi) with everything else masked away. */
  function Masked(words: seq<nat>, log2: nat, lo: nat, hi: nat): nat
    requires DivPow2(lo, log2) < |words| && lo < hi && ModPow2(lo, log2) + hi - lo <= Pow2(log2)
  {
    And(words[DivPow2(lo, log2)], Bitmask(Pow2(log2), ModPow2(lo, log2), ModPow2(lo, log2) + hi - lo))
  }

  lemma MaskedHas(words: seq<nat>, log2: nat, lo: nat, hi: nat, i: nat)
    requires DivPow2(lo, log2) < |words| && OneWord(log2, lo, hi)
    ensures var first := ModPow2(lo, log2);
            Bit(Masked(words, log2, lo, hi), i) <==> first <= i < first + hi - lo && Has(words, log2, lo + i - first)
  {
    var first := ModPow2(lo, log2);
    MaskedBit(Pow2(log2), words[DivPow2(lo, log2)], first, first + hi - lo, i);
    if first <= i < first + hi - lo {
      assert DivPow2(lo + i - first, log2) == DivPow2(lo, log2);
    }
  }

  lemma MaskedIsZero(words: seq<nat>, log2: nat, lo: nat, hi: nat)
    requires DivPow2(lo, log2) < |words| && OneWord(log2, lo, hi)
    ensures Masked(words, log2, lo, hi) == 0 <==> forall b | lo <= b < hi :: !Has(words, log2, b)
  {
    var v := Masked(words, log2, lo, hi);
    if v == 0 {
      forall b | lo <= b < hi ensures !Has(words, log2, b) {
        MaskedHas(words, log2, lo, hi, ModPow2(lo, log2) + b - lo);
        BitOfZero(ModPow2(lo, log2) + b - lo);
      }
    } else {
      CountrZeroIsLeast(v, 0);
      MaskedHas(words, log2, lo, hi, CountrZero(v));
    }
  }

  /** The lowest digit of a non-zero masked word is the first set bit of the range. */
  lemma LowestIsFirst(words: seq<nat>, log2: nat, lo: nat, hi: nat)
    requires DivPow2(lo, log2) < |words| && OneWord(log2, lo, hi) && Masked(words, log2, lo, hi) > 0
    ensures var bit := AlignDown(lo, log2) + CountrZero(Masked(words, log2, lo, hi));
            && lo <= bit < hi && Has(words, log2, bit)
            && forall b | lo <= b < bit :: !Has(words, log2, b)
  {
    var v := Masked(words, log2, lo, hi);
    var first := ModPow2(lo, log2);
    CountrZeroIsLeast(v, 0);
    MaskedHas(words, log2, lo, hi, CountrZero(v));
    forall b | lo <= b < lo + CountrZero(v) - first ensures !Has(words, log2, b) {
      MaskedHas(words, log2, lo, hi, first + b - lo);
      CountrZeroIsLeast(v, first + b - lo);
    }
  }

  /** One turn of a search upwards: the word of [lo, hi) is all zero under its mask, or its lowest digit is the first
      set bit. */
  lemma WordSearched(words: seq<nat>, log2: nat, lo: nat, last: nat)
    requires lo < last && DivPow2(lo, log2) < |words|
    ensures var hi := ChunkEnd(log2, lo, last);
            && lo < hi <= last && ModPow2(lo, log2) + hi - lo <= Pow2(log2)
            && if Masked(words, log2, lo, hi) == 0 then forall b | lo <= b < hi :: !Has(words, log2, b)
               else
                 var bit := AlignDown(lo, log2) + CountrZero(Masked(words, log2, lo, hi));
                 lo <= bit < hi && Has(words, log2, bit) && forall b | lo <= b < bit :: !Has(words, log2, b)
  {
    var hi := ChunkEnd(log2, lo, last);
    ChunkIsOneWord(log2, lo, last);
    MaskedIsZero(words, log2, lo, hi);
    if Masked(words, log2, lo, hi) != 0 {
      LowestIsFirst(words, log2, lo, hi);
    }
  }

  /** The highest digit of a non-zero masked word is the last set bit of the range. */
  lemma HighestIsLast(words: seq<nat>, log2: nat, lo: nat, hi: nat)
    requires DivPow2(lo, log2) < |words| && OneWord(log2, lo, hi) && Masked(words, log2, lo, hi) > 0
    ensures var bit := AlignDown(lo, log2) + Log2(Masked(words, log2, lo, hi));
            && lo <= bit < hi && Has(words, log2, bit)
            && forall b | bit < b < hi :: !Has(words, log2, b)
  {
    var v := Masked(words, log2, lo, hi);
    var first := ModPow2(lo, log2);
    Log2IsGreatest(v, 0);
    MaskedHas(words, log2, lo, hi, Log2(v));
    forall b | lo + Log2(v) - first < b < hi ensures !Has(words, log2, b) {
      MaskedHas(words, log2, lo, hi, first + b - lo);
      Log2IsGreatest(v, first + b - lo);
    }
  }

  /** The word of [lo, hi) with everything outside the range filled with ones. */
  function Filled(words: seq<nat>, log2: nat, lo: nat, hi: nat): nat
    requires DivPow2(lo, log2) < |words| && lo < hi && ModPow2(lo, log2) + hi - lo <= Pow2(log2)
  {
    var first := ModPow2(lo, log2);
    BitmaskFits(Pow2(log2), first, first + hi - lo);
    Or(words[DivPow2(lo, log2)], Not(Pow2(log2), Bitmask(Pow2(log2), first, first + hi - lo)))
  }

  lemma FilledHas(words: seq<nat>, log2: nat, lo: nat, hi: nat, i: nat)
    requires DivPow2(lo, log2) < |words| && OneWord(log2, lo, hi) && words[DivPow2(lo, log2)] < Pow2(Pow2(log2))
    ensures var first := ModPow2(lo, log2);
            Bit(Filled(words, log2, lo, hi), i) <==>
              i < Pow2(log2) && (first <= i < first + hi - lo ==> Has(words, log2, lo + i - first))
  {
    var first := ModPow2(lo, log2);
    var w, mask := words[DivPow2(lo, log2)], Bitmask(Pow2(log2), first, first + hi - lo);
    BitmaskFits(Pow2(log2), first, first + hi - lo);
    BitOr(w, Not(Pow2(log2), mask), i);
    BitNot(Pow2(log2), mask, i);
    BitmaskBit(Pow2(log2), first, first + hi - lo, i);
    if i >= Pow2(log2) {
      BitBeyond(Pow2(log2), w, i);
    }
    if first <= i < first + hi - lo {
      assert DivPow2(lo + i - first, log2) == DivPow2(lo, log2);
    }
  }

  lemma {:induction false} FilledFits(width: nat, a: nat, b: nat)
    requires a < Pow2(width) && b < Pow2(width)
    ensures Or(a, b) < Pow2(width)
  {
    if width > 0 {
      FilledFits(width - 1, a / 2, b / 2);
    }
  }

  lemma FilledBelow(words: seq<nat>, log2: nat, lo: nat, hi: nat)
    requires DivPow2(lo, log2) < |words| && OneWord(log2, lo, hi) && words[DivPow2(lo, log2)] < Pow2(Pow2(log2))
    ensures Filled(words, log2, lo, hi) < Pow2(Pow2(log2)) && Not(Pow2(log2), Filled(words, log2, lo, hi)) >= 0
  {
    var first, n := ModPow2(lo, log2), Pow2(log2);
    BitmaskFits(n, first, first + hi - lo);
    FilledFits(n, words[DivPow2(lo, log2)], Not(n, Bitmask(n, first, first + hi - lo)));
  }

  /** A filled word of ones only means that all bits of the range are set. */
  lemma AllOnesAllSet(words: seq<nat>, log2: nat, lo: nat, hi: nat)
    requires DivPow2(lo, log2) < |words| && OneWord(log2, lo, hi) && words[DivPow2(lo, log2)] < Pow2(Pow2(log2))
    requires Not(Pow2(log2), Filled(words, log2, lo, hi)) == 0
    ensures forall b | lo <= b < hi :: Has(words, log2, b)
  {
    var v, first := Filled(words, log2, lo, hi), ModPow2(lo, log2);
    FilledBelow(words, log2, lo, hi);
    forall b | lo <= b < hi ensures Has(words, log2, b) {
      FilledHas(words, log2, lo, hi, first + b - lo);
      BitNot(Pow2(log2), v, first + b - lo);
      BitOfZero(first + b - lo);
    }
  }

  /** The run of ones at the bottom of a filled word that is not all ones ends inside the range. */
  lemma OnesEndInside(words: seq<nat>, log2: nat, lo: nat, hi: nat)
    requires DivPow2(lo, log2) < |words| && OneWord(log2, lo, hi) && words[DivPow2(lo, log2)] < Pow2(Pow2(log2))
    requires Not(Pow2(log2), Filled(words, log2, lo, hi)) != 0
    ensures var z, first := CountrOne(Filled(words, log2, lo, hi)), ModPow2(lo, log2);
            first <= z < first + hi - lo && !Has(words, log2, lo + z - first)
  {
    var v := Filled(words, log2, lo, hi);
    FilledBelow(words, log2, lo, hi);
    UnsetBelow(Pow2(log2), v);
    CountrOneIsLeast(v, 0);
    FilledHas(words, log2, lo, hi, CountrOne(v));
  }

  /** Otherwise the run of ones at its bottom ends at the first unset bit of the range. */
  lemma OnesEndAtFirstUnset(words: seq<nat>, log2: nat, lo: nat, hi: nat)
    requires DivPow2(lo, log2) < |words| && OneWord(log2, lo, hi) && words[DivPow2(lo, log2)] < Pow2(Pow2(log2))
    requires Not(Pow2(log2), Filled(words, log2, lo, hi)) != 0
    ensures var bit := AlignDown(lo, log2) + CountrOne(Filled(words, log2, lo, hi));
            lo <= bit < hi && !Has(words, log2, bit) && forall b | lo <= b < bit :: Has(words, log2, b)
  {
    var v, first := Filled(words, log2, lo, hi), ModPow2(lo, log2);
    OnesEndInside(words, log2, lo, hi);
    forall b | lo <= b < lo + CountrOne(v) - first ensures Has(words, log2, b) {
      FilledHas(words, log2, lo, hi, first + b - lo);
      CountrOneIsLeast(v, first + b - lo);
    }
  }

  /** A word that is not all ones has an unset digit within its width. */
  lemma UnsetBelow(width: nat, v: nat)
    requires v < Pow2(width) && Not(width, v) > 0
    ensures CountrOne(v) < width
  {
    var z := CountrZero(Not(width, v));
    CountrZeroIsLeast(Not(width, v), 0);
    BitNot(width, v, z);
    CountrOneIsLeast(v, z);
  }

  lemma {:induction false} CountIsBits(words: seq<nat>, log2: nat, lo: nat, mid: nat, hi: nat)
    requires DivPow2(lo, log2) < |words| && OneWord(log2, lo, hi) && lo <= mid <= hi
    ensures Count(words, log2, lo, mid)
         == CountBits(words[DivPow2(lo, log2)], ModPow2(lo, log2), ModPow2(lo, log2) + mid - lo)
  {
    if lo < mid {
      CountIsBits(words, log2, lo, mid - 1, hi);
    }
  }

  lemma MaskedIsCount(words: seq<nat>, log2: nat, lo: nat, hi: nat)
    requires DivPow2(lo, log2) < |words| && OneWord(log2, lo, hi) && words[DivPow2(lo, log2)] < Pow2(Pow2(log2))
    ensures PopCount(Masked(words, log2, lo, hi)) == Count(words, log2, lo, hi)
  {
    CountIsBits(words, log2, lo, hi, hi);
    MaskedCount(Pow2(log2), words[DivPow2(lo, log2)], ModPow2(lo, log2), ModPow2(lo, log2) + hi - lo);
  }

  lemma {:induction false} CountJoin(words: seq<nat>, log2: nat, lo: nat, mid: nat, hi: nat)
    requires lo <= mid <= hi
    ensures Count(words, log2, lo, hi) == Count(words, log2, lo, mid) + Count(words, log2, mid, hi)
  {
    if mid < hi {
      CountJoin(words, log2, lo, mid, hi - 1);
    }
  }

  lemma {:induction false} CountZero(words: seq<nat>, log2: nat, lo: nat, hi: nat)
    ensures Count(words, log2, lo, hi) == 0 <==> forall b | lo <= b < hi :: !Has(words, log2, b)
  {
    if lo < hi {
      CountZero(words, log2, lo, hi - 1);
    }
  }

  // ---------------------------------------------------------------------------------------------- ranks

  lemma {:induction false} RankRises(w: nat, c: nat, d: nat)
    requires c <= d
    ensures CountBits(w, 0, c) <= CountBits(w, 0, d)
    ensures c < d && Bit(w, c) ==> CountBits(w, 0, c) < CountBits(w, 0, d)
  {
    if c < d {
      RankRises(w, c, d - 1);
    }
  }

  /** The digit that has exactly i set digits below it. */
  lemma {:induction false} DigitOfRank(w: nat, i: nat, width: nat) returns (d: nat)
    requires i < CountBits(w, 0, width)
    ensures d < width && Bit(w, d) && CountBits(w, 0, d) == i
  {
    if Bit(w, width - 1) && CountBits(w, 0, width - 1) == i {
      d := width - 1;
    } else {
      d := DigitOfRank(w, i, width - 1);
    }
  }

  /** v is w without its i lowest set digits. */
  ghost predicate Dropped(w: nat, v: nat, i: nat) {
    forall d: nat :: Bit(v, d) <==> Bit(w, d) && CountBits(w, 0, d) >= i
  }

  /** The lowest digit left after dropping i has rank i. */
  lemma LowestHasRank(w: nat, v: nat, i: nat, width: nat)
    requires Dropped(w, v, i) && i < CountBits(w, 0, width)
    ensures v > 0 && Bit(w, CountrZero(v)) && CountBits(w, 0, CountrZero(v)) == i
  {
    var d := DigitOfRank(w, i, width);
    assert Bit(v, d);
    BitOfZero(d);
    CountrZeroIsLeast(v, d);
    RankRises(w, CountrZero(v), d);
  }

  lemma DropOne(w: nat, v: nat, i: nat, width: nat)
    requires Dropped(w, v, i) && i < CountBits(w, 0, width)
    ensures v > 0 && Dropped(w, And(v, v - 1), i + 1)
  {
    LowestHasRank(w, v, i, width);
    var z := CountrZero(v);
    forall d: nat ensures Bit(And(v, v - 1), d) <==> Bit(w, d) && CountBits(w, 0, d) >= i + 1 {
      DropLowest(v, d);
      if d < z {
        RankRises(w, d, z);
      } else if d > z {
        RankRises(w, z, d);
      }
    }
  }

  /** Ranks in a masked word count set bits of the range. */
  lemma MaskedRank(words: seq<nat>, log2: nat, lo: nat, hi: nat, z: nat)
    requires DivPow2(lo, log2) < |words| && OneWord(log2, lo, hi)
    requires ModPow2(lo, log2) <= z <= ModPow2(lo, log2) + hi - lo
    ensures CountBits(Masked(words, log2, lo, hi), 0, z) == Count(words, log2, lo, lo + z - ModPow2(lo, log2))
  {
    var v, w, first := Masked(words, log2, lo, hi), words[DivPow2(lo, log2)], ModPow2(lo, log2);
    forall i: nat ensures Bit(v, i) <==> first <= i < first + hi - lo && Bit(w, i) {
      MaskedBit(Pow2(log2), w, first, first + hi - lo, i);
    }
    CountSplit(v, 0, first, z);
    CountNone(v, 0, first);
    CountSame(v, w, first, z);
    CountIsBits(words, log2, lo, lo + z - first, hi);
  }

  // ---------------------------------------------------------------------------------------------- single bits

  /** Words that differ in one bit's word, by setting the bit ... */
  lemma BitSet(words: seq<nat>, log2: nat, bit: nat, b: nat)
    requires DivPow2(bit, log2) < |words| && DivPow2(b, log2) < |words|
    ensures var k := DivPow2(bit, log2); var word := Or(words[k], Shl(Pow2(log2), 1, ModPow2(bit, log2)));
            Has(words[k := word], log2, b) <==> b == bit || Has(words, log2, b)
  {
    var k, f := DivPow2(bit, log2), ModPow2(bit, log2);
    OneBit(log2, f, ModPow2(b, log2));
    BitOr(words[k], Shl(Pow2(log2), 1, f), ModPow2(b, log2));
    if DivPow2(b, log2) == k && ModPow2(b, log2) == f {
      SamePosition(log2, b, bit);
    }
  }

  lemma ClearedFits(log2: nat, word: nat, f: nat)
    requires word < Pow2(Pow2(log2))
    ensures var mask := Shl(Pow2(log2), 1, f);
            Not(Pow2(log2), mask) >= 0 && And(word, Not(Pow2(log2), mask)) < Pow2(Pow2(log2))
  {
    var mask := Shl(Pow2(log2), 1, f);
    BitNot(Pow2(log2), mask, 0);
    AndFits(Pow2(log2), word, Not(Pow2(log2), mask));
  }

  /** ... or by clearing it, differ in that bit only. */
  lemma BitUnset(words: seq<nat>, log2: nat, bit: nat, b: nat)
    requires DivPow2(bit, log2) < |words| && DivPow2(b, log2) < |words|
    ensures Not(Pow2(log2), Shl(Pow2(log2), 1, ModPow2(bit, log2))) >= 0
    ensures var k := DivPow2(bit, log2);
            var word := And(words[k], Not(Pow2(log2), Shl(Pow2(log2), 1, ModPow2(bit, log2))));
            Has(words[k := word], log2, b) <==> b != bit && Has(words, log2, b)
  {
    var k, f := DivPow2(bit, log2), ModPow2(bit, log2);
    var mask := Shl(Pow2(log2), 1, f);
    OneBit(log2, f, ModPow2(b, log2));
    BitNot(Pow2(log2), mask, ModPow2(b, log2));
    BitAnd(words[k], Not(Pow2(log2), mask), ModPow2(b, log2));
    if DivPow2(b, log2) == k && ModPow2(b, log2) == f {
      SamePosition(log2, b, bit);
    }
  }

  // ---------------------------------------------------------------------------------------------- the class

  class Bitmap {
    const log2: nat      // words have 2^log2 bits
    const capacity: nat  // also the null answer of the searches
    const bins: array<nat>

    ghost predicate Valid()
      reads bins
    {
      && bins.Length == DivPow2(capacity + Pow2(log2) - 1, log2)
      && forall i | 0 <= i < bins.Length :: bins[i] < Pow2(Pow2(log2))
    }

    /** Whether the bit is a member of the set the bitmap stands for. */
    ghost predicate Holds(b: nat)
      reads bins
    {
      b < capacity && Has(bins[..], log2, b)
    }

    constructor (log2: nat, capacity: nat)
      ensures Valid() && this.log2 == log2 && this.capacity == capacity && fresh(bins)
      ensures forall b :: !Holds(b)
    {
      this.log2, this.capacity := log2, capacity;
      bins := new nat[DivPow2(capacity + Pow2(log2) - 1, log2)](_ => 0);
      new;
      forall b: nat ensures !Holds(b) {
        BitOfZero(ModPow2(b, log2));
      }
    }

    method Reset()
      requires Valid()
      modifies bins
      ensures Valid() && forall b :: !Holds(b)
    {
      for i := 0 to bins.Length
        invariant forall j | 0 <= j < i :: bins[j] == 0
        invariant Valid()
      {
        bins[i] := 0;
      }
      forall b: nat ensures !Holds(b) {
        BitOfZero(ModPow2(b, log2));
      }
    }

    method Set(bit: nat)
      requires Valid() && bit < capacity
      modifies bins
      ensures Valid() && forall b :: Holds(b) <==> b == bit || old(Holds(b))
    {
      var k, f := DivPow2(bit, log2), ModPow2(bit, log2);
      CapacityIndex(log2, capacity, bit);
      ghost var before := bins[..];
      bins[k] := Or(bins[k], Shl(Pow2(log2), 1, f));
      FilledFits(Pow2(log2), before[k], Shl(Pow2(log2), 1, f));
      assert bins[..] == before[k := bins[k]];
      forall b: nat | b < capacity ensures Has(bins[..], log2, b) <==> b == bit || Has(before, log2, b) {
        CapacityIndex(log2, capacity, b);
        BitSet(before, log2, bit, b);
      }
    }

    method Unset(bit: nat)
      requires Valid() && bit < capacity
      modifies bins
      ensures Valid() && forall b :: Holds(b) <==> b != bit && old(Holds(b))
    {
      var k, f := DivPow2(bit, log2), ModPow2(bit, log2);
      CapacityIndex(log2, capacity, bit);
      ghost var before := bins[..];
      ClearedFits(log2, bins[k], f);
      bins[k] := And(bins[k], Not(Pow2(log2), Shl(Pow2(log2), 1, f)));
      assert bins[..] == before[k := bins[k]];
      forall b: nat | b < capacity ensures Has(bins[..], log2, b) <==> b != bit && Has(before, log2, b) {
        CapacityIndex(log2, capacity, b);
        BitUnset(before, log2, bit, b);
      }
    }

    method Get(bit: nat) returns (r: bool)
      requires Valid() && bit < capacity
      ensures r <==> Holds(bit)
    {
      CapacityIndex(log2, capacity, bit);
      var shifted := Shr(bins[DivPow2(bit, log2)], ModPow2(bit, log2));
      r := And(shifted, 1) != 0;
      BitShr(bins[DivPow2(bit, log2)], ModPow2(bit, log2), 0);
      AndOne(shifted);
    }

    /** One turn of a search upwards: the end of the bits that share a word with the given one, and the least member
        among them, or that end if there is none. */
    method SearchWord(curr: nat) returns (next: nat, bit: nat)
      requires Valid() && curr < capacity
      ensures curr < next <= capacity && curr <= bit <= next && (bit < next ==> Holds(bit))
      ensures forall b | curr <= b < bit :: !Holds(b)
    {
      next := ChunkEnd(log2, curr, capacity);
      CapacityIndex(log2, capacity, curr);
      WordSearched(bins[..], log2, curr, capacity);
      var masked := Masked(bins[..], log2, curr, next);
      bit := if masked != 0 then AlignDown(curr, log2) + CountrZero(masked) else next;
    }

    /** The least member at or above start, or the capacity if there is none. */
    method GetFirstSet(start: nat) returns (bit: nat)
      requires Valid() && start < capacity
      ensures start <= bit <= capacity && (bit < capacity ==> Holds(bit))
      ensures forall b | start <= b < bit :: !Holds(b)
    {
      var curr := start;
      while curr < capacity
        invariant start <= curr <= capacity
        invariant forall b | start <= b < curr :: !Holds(b)
      {
        var next;
        next, bit := SearchWord(curr);
        if bit < next {
          return;
        }
        curr := next;
      }
      return capacity;
    }

    method AnySet(start: nat) returns (r: bool)
      requires Valid() && start < capacity
      ensures r <==> exists b :: start <= b && Holds(b)
    {
      var curr := start;
      while curr < capacity
        invariant start <= curr <= capacity
        invariant forall b | start <= b < curr :: !Holds(b)
      {
        var next, bit := SearchWord(curr);
        if bit < next {
          return true;
        }
        curr := next;
      }
      return false;
    }

    /** The greatest member at or above start, or the capacity if there is none. */
    method GetLastSet(start: nat) returns (bit: nat)
      requires Valid() && start < capacity
      ensures bit == capacity || (start <= bit && Holds(bit))
      ensures forall b | start <= b && (bit == capacity || bit < b) :: !Holds(b)
    {
      var curr := capacity;
      while curr > start
        invariant start <= curr <= capacity
        invariant forall b | curr <= b :: !Holds(b)
      {
        var next := ChunkStart(log2, curr, start);
        ChunkBackIsOneWord(log2, curr, start);
        CapacityIndex(log2, capacity, next);
        var masked := Masked(bins[..], log2, next, curr);
        MaskedIsZero(bins[..], log2, next, curr);
        if masked != 0 {
          HighestIsLast(bins[..], log2, next, curr);
          return AlignDown(next, log2) + Log2(masked);
        }
        curr := next;
      }
      return capacity;
    }

    /** Makes the least non-member at or above start a member and returns it, or the capacity if there is none. */
    method SetFirstUnset(start: nat) returns (bit: nat)
      requires Valid() && start < capacity
      modifies bins
      ensures Valid() && start <= bit <= capacity && (bit < capacity ==> !old(Holds(bit)))
      ensures forall b | start <= b < bit :: old(Holds(b))
      ensures forall b :: Holds(b) <==> (b == bit && bit < capacity) || old(Holds(b))
    {
      var curr := start;
      while curr < capacity
        invariant start <= curr <= capacity && bins[..] == old(bins[..])
        invariant forall b | start <= b < curr :: old(Holds(b))
      {
        var next := ChunkEnd(log2, curr, capacity);
        ChunkIsOneWord(log2, curr, capacity);
        CapacityIndex(log2, capacity, curr);
        var filled := Filled(bins[..], log2, curr, next);
        if Not(Pow2(log2), filled) != 0 {
          OnesEndAtFirstUnset(bins[..], log2, curr, next);
          bit := AlignDown(curr, log2) + CountrOne(filled);
          Set(bit);
          return;
        }
        AllOnesAllSet(bins[..], log2, curr, next);
        curr := next;
      }
      return capacity;
    }

    /** The number of members at or above start. */
    method CountFrom(start: nat) returns (total: nat)
      requires Valid() && start < capacity
      ensures total == Count(bins[..], log2, start, capacity)
    {
      total := 0;
      var curr := start;
      while curr < capacity
        invariant start <= curr <= capacity
        invariant total == Count(bins[..], log2, start, curr)
      {
        var next := ChunkEnd(log2, curr, capacity);
        ChunkIsOneWord(log2, curr, capacity);
        CapacityIndex(log2, capacity, curr);
        MaskedIsCount(bins[..], log2, curr, next);
        CountJoin(bins[..], log2, start, curr, next);
        total := total + PopCount(Masked(bins[..], log2, curr, next));
        curr := next;
      }
    }

    /** The set bit of one word's range that has the given number of set bits before it. */
    method SampleInWord(curr: nat, next: nat, rank: nat) returns (bit: nat)
      requires Valid() && OneWord(log2, curr, next) && next <= capacity && DivPow2(curr, log2) < bins.Length
      requires rank < PopCount(Masked(bins[..], log2, curr, next))
      ensures curr <= bit < next && Holds(bit) && Count(bins[..], log2, curr, bit) == rank
    {
      var masked := Masked(bins[..], log2, curr, next);
      AndFits(Pow2(log2), bins[DivPow2(curr, log2)],
              Bitmask(Pow2(log2), ModPow2(curr, log2), ModPow2(curr, log2) + next - curr));
      var digit := DigitAt(log2, masked, rank);
      DigitIsSample(bins[..], log2, curr, next, digit);
      bit := AlignDown(curr, log2) + digit;
    }

    /** The (seed mod count)-th member at or above start, or the capacity if there is none. */
    method SampleSetBit(seed: nat, start: nat) returns (bit: nat)
      requires Valid() && start < capacity
      ensures bit == capacity <==> Count(bins[..], log2, start, capacity) == 0
      ensures bit != capacity ==>
                start <= bit && Holds(bit)
                && Count(bins[..], log2, start, bit) == Pick(seed, Count(bins[..], log2, start, capacity))
    {
      var total := CountFrom(start);
      if total == 0 {
        return capacity;
      }
      var rank := Pick(seed, total);
      var skipped, curr := 0, start;
      while curr < capacity
        invariant start <= curr <= capacity
        invariant skipped == Count(bins[..], log2, start, curr) <= rank < total
      {
        var next := ChunkEnd(log2, curr, capacity);
        ChunkIsOneWord(log2, curr, capacity);
        CapacityIndex(log2, capacity, curr);
        var masked := Masked(bins[..], log2, curr, next);
        MaskedIsCount(bins[..], log2, curr, next);
        CountJoin(bins[..], log2, start, curr, next);
        if rank - skipped < PopCount(masked) {
          bit := SampleInWord(curr, next, rank - skipped);
          CountJoin(bins[..], log2, start, curr, bit);
          return;
        }
        skipped := skipped + PopCount(masked);
        curr := next;
      }
      assert false;
    }
  }

  /** The digit of the given rank, found by dropping lower ones. */
  method DigitAt(log2: nat, masked: nat, rank: nat) returns (digit: nat)
    requires rank < PopCount(masked) && masked < Pow2(Pow2(log2))
    ensures Bit(masked, digit) && CountBits(masked, 0, digit) == rank
  {
    PopCountIsCount(Pow2(log2), masked);
    var corrected := masked;
    for i := 0 to rank
      invariant Dropped(masked, corrected, i)
    {
      DropOne(masked, corrected, i, Pow2(log2));
      corrected := And(corrected, corrected - 1);
    }
    LowestHasRank(masked, corrected, rank, Pow2(log2));
    digit := CountrZero(corrected);
  }

  /** The rank a seed selects among n. */
  function Pick(seed: nat, n: nat): (r: nat)
    requires n > 0
    ensures r < n
  {
    DivBounds(seed, n);
    seed % n
  }

  /** A set digit of a masked word is a member, and its rank in the word counts the members of the range below it. */
  lemma DigitIsSample(words: seq<nat>, log2: nat, lo: nat, hi: nat, digit: nat)
    requires DivPow2(lo, log2) < |words| && OneWord(log2, lo, hi) && Bit(Masked(words, log2, lo, hi), digit)
    ensures var bit := AlignDown(lo, log2) + digit;
            && lo <= bit < hi && Has(words, log2, bit)
            && CountBits(Masked(words, log2, lo, hi), 0, digit) == Count(words, log2, lo, bit)
  {
    MaskedHas(words, log2, lo, hi, digit);
    MaskedRank(words, log2, lo, hi, digit);
  }

  lemma OneBit(log2: nat, f: nat, i: nat)
    requires f < Pow2(log2)
    ensures Shl(Pow2(log2), 1, f) < Pow2(Pow2(log2))
    ensures Bit(Shl(Pow2(log2), 1, f), i) <==> i == f
  {
    BitShl(Pow2(log2), 1, f, i);
    if i > f {
      BitOfZero(i - f - 1);
    }
  }

  lemma AndOne(w: nat)
    ensures And(w, 1) != 0 <==> Bit(w, 0)
  {
    BitAnd(w, 1, 0);
    if w > 0 {
      AndZero(w / 2);
    }
  }

  lemma AndZero(w: nat)
    ensures And(w, 0) == 0
  {
  }

  lemma SamePosition(log2: nat, b: nat, c: nat)
    requires DivPow2(b, log2) == DivPow2(c, log2) && ModPow2(b, log2) == ModPow2(c, log2)
    ensures b == c
  {
  }
}
