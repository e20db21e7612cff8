/** Machine words of any width as natural numbers, with the bit operations of funcs.hpp defined on their digits. */
module Words {
  import opened Powers

  /** The i-th binary digit of w. */
  predicate Bit(w: nat, i: nat) {
    if i == 0 then w % 2 == 1 else Bit(w / 2, i - 1)
  }

  function And(a: nat, b: nat): nat {
    if a == 0 then 0 else 2 * And(a / 2, b / 2) + (a % 2) * (b % 2)
  }

  function Or(a: nat, b: nat): nat
    decreases a + b
  {
    if a == 0 && b == 0 then 0 else 2 * Or(a / 2, b / 2) + (if a % 2 == 1 || b % 2 == 1 then 1 else 0)
  }

  /** ~w on words of `width` bits. */
  function Not(width: nat, w: nat): int {
    Pow2(width) - 1 - w
  }

  function Shl(width: nat, w: nat, k: nat): nat {
    ModPow2(w * Pow2(k), width)
  }

  function Shr(w: nat, k: nat): nat {
    DivPow2(w, k)
  }

  // ---------------------------------------------------------------------------------------------- digits

  lemma {:induction false} BitOfZero(i: nat)
    ensures !Bit(0, i)
  {
    if i > 0 {
      BitOfZero(i - 1);
    }
  }

  lemma {:induction false} BitAnd(a: nat, b: nat, i: nat)
    ensures Bit(And(a, b), i) <==> Bit(a, i) && Bit(b, i)
    decreases i
  {
    if a == 0 {
      BitOfZero(i);
    } else if i > 0 {
      BitAnd(a / 2, b / 2, i - 1);
    }
  }

  lemma {:induction false} BitOr(a: nat, b: nat, i: nat)
    ensures Bit(Or(a, b), i) <==> Bit(a, i) || Bit(b, i)
    decreases i
  {
    if a == 0 && b == 0 {
      BitOfZero(i);
    } else if i > 0 {
      BitOr(a / 2, b / 2, i - 1);
    }
  }

  lemma {:induction false} BitNot(width: nat, w: nat, i: nat)
    requires w < Pow2(width)
    ensures Not(width, w) >= 0 && (Bit(Not(width, w), i) <==> i < width && !Bit(w, i))
    decreases width
  {
    if width == 0 {
      BitOfZero(i);
    } else if i > 0 {
      BitNot(width - 1, w / 2, i - 1);
      assert Not(width, w) / 2 == Not(width - 1, w / 2);
    }
  }

  /** A word has no digits beyond its width. */
  lemma {:induction false} BitBeyond(width: nat, w: nat, i: nat)
    requires w < Pow2(width) && i >= width
    ensures !Bit(w, i)
  {
    if width == 0 {
      BitOfZero(i);
    } else {
      BitBeyond(width - 1, w / 2, i - 1);
    }
  }

  lemma {:induction false} BitTimesPow2(w: nat, k: nat, i: nat)
    ensures Bit(w * Pow2(k), i) <==> i >= k && Bit(w, i - k)
  {
    if k > 0 {
      assert w * Pow2(k) == 2 * (w * Pow2(k - 1));
      if i > 0 {
        BitTimesPow2(w, k - 1, i - 1);
      }
    }
  }

  lemma {:induction false} BitShr(w: nat, k: nat, i: nat)
    ensures Bit(Shr(w, k), i) <==> Bit(w, i + k)
  {
    if k > 0 {
      BitShr(w / 2, k - 1, i);
      DivTwice(w, k);
    }
  }

  lemma DivTwice(w: nat, k: nat)
    requires k > 0
    ensures DivPow2(w, k) == DivPow2(w / 2, k - 1)
  {
    var q := DivPow2(w / 2, k - 1);
    assert q * Pow2(k) == 2 * (q * Pow2(k - 1));
    DivPow2Unique(w, k, q);
  }

  lemma ModTwice(w: nat, k: nat)
    requires k > 0
    ensures ModPow2(w, k) == 2 * ModPow2(w / 2, k - 1) + w % 2
  {
    var q := DivPow2(w / 2, k - 1);
    assert q * Pow2(k) == 2 * (q * Pow2(k - 1));
    DivPow2Unique(w, k, q);
  }

  lemma {:induction false} BitMod(w: nat, width: nat, i: nat)
    ensures Bit(ModPow2(w, width), i) <==> i < width && Bit(w, i)
    decreases width
  {
    if width == 0 {
      DivPow2Unique(w, 0, w);
      BitOfZero(i);
    } else {
      ModTwice(w, width);
      if i > 0 {
        BitMod(w / 2, width - 1, i - 1);
      }
    }
  }

  lemma BitShl(width: nat, w: nat, k: nat, i: nat)
    ensures Bit(Shl(width, w, k), i) <==> k <= i < width && Bit(w, i - k)
  {
    BitTimesPow2(w, k, i);
    BitMod(w * Pow2(k), width, i);
  }

  lemma {:induction false} ZeroBits(w: nat)
    requires forall i: nat :: !Bit(w, i)
    ensures w == 0
  {
    if w > 0 {
      assert !Bit(w, 0);
      forall i: nat ensures !Bit(w / 2, i) {
        assert !Bit(w, i + 1);
      }
      ZeroBits(w / 2);
    }
  }

  // ---------------------------------------------------------------------------------------------- masks

  /** bitmask: shifts all ones up and back down until only [first, last) is left. */
  function Bitmask(width: nat, first: nat, last: nat): nat
    requires first < last <= width
  {
    Shr(Shl(width, Shl(width, Shr(Pow2(width) - 1, first), first), width - last), width - last)
  }

  lemma BitmaskBit(width: nat, first: nat, last: nat, i: nat)
    requires first < last <= width
    ensures Bit(Bitmask(width, first, last), i) <==> first <= i < last
  {
    var tail := width - last;
    var all := Pow2(width) - 1;
    var low := Shl(width, Shr(all, first), first);
    BitShr(Shl(width, low, tail), tail, i);
    BitShl(width, low, tail, i + tail);
    BitShl(width, Shr(all, first), first, i);
    if i >= first {
      BitShr(all, first, i - first);
      BitNot(width, 0, i);
      BitOfZero(i);
    }
  }

  lemma BitmaskFits(width: nat, first: nat, last: nat)
    requires first < last <= width
    ensures Bitmask(width, first, last) < Pow2(width)
  {
  }

  /** Masking keeps exactly the digits in [first, last). */
  lemma MaskedBit(width: nat, w: nat, first: nat, last: nat, i: nat)
    requires first < last <= width
    ensures Bit(And(w, Bitmask(width, first, last)), i) <==> first <= i < last && Bit(w, i)
  {
    BitAnd(w, Bitmask(width, first, last), i);
    BitmaskBit(width, first, last, i);
  }

  /** The mask that modpow2 builds has ones in its low k digits and nowhere else. */
  lemma ModMaskBit(width: nat, k: nat, i: nat)
    requires k <= width
    ensures Not(width, Shl(width, Pow2(width) - 1, k)) >= 0
    ensures Bit(Not(width, Shl(width, Pow2(width) - 1, k)), i) <==> i < k
  {
    BitNot(width, Shl(width, Pow2(width) - 1, k), i);
    BitShl(width, Pow2(width) - 1, k, i);
    if i >= k {
      BitNot(width, 0, i - k);
      BitOfZero(i - k);
    }
  }

  /** modpow2's mask keeps the low k digits, which is the remainder by 2^k. */
  lemma ModIsMask(width: nat, w: nat, k: nat)
    requires w < Pow2(width) && k <= width
    ensures Not(width, Shl(width, Pow2(width) - 1, k)) >= 0
    ensures And(w, Not(width, Shl(width, Pow2(width) - 1, k))) == ModPow2(w, k)
  {
    ModMaskBit(width, k, 0);
    var mask := Not(width, Shl(width, Pow2(width) - 1, k));
    forall i: nat ensures Bit(And(w, mask), i) == Bit(ModPow2(w, k), i) {
      BitAnd(w, mask, i);
      ModMaskBit(width, k, i);
      BitMod(w, k, i);
    }
    SameBits(And(w, mask), ModPow2(w, k));
  }

  /** align_down: rounds down to a multiple of 2^k. */
  function AlignDown(w: nat, k: nat): nat {
    w - ModPow2(w, k)
  }

  lemma AlignDownBit(w: nat, k: nat, i: nat)
    ensures AlignDown(w, k) == DivPow2(w, k) * Pow2(k)
    ensures Bit(AlignDown(w, k), i) <==> i >= k && Bit(w, i)
  {
    BitTimesPow2(DivPow2(w, k), k, i);
    if i >= k {
      BitShr(w, k, i - k);
    }
  }

  lemma LowMaskBit(width: nat, k: nat, i: nat)
    requires k <= width
    ensures Not(width, Pow2(k) - 1) >= 0
    ensures Bit(Not(width, Pow2(k) - 1), i) <==> k <= i < width
  {
    Pow2Monotone(k, width);
    BitNot(width, Pow2(k) - 1, i);
    BitNot(k, 0, i);
    BitOfZero(i);
  }

  /** align_down's mask clears the low k digits, which rounds down to a multiple of 2^k. */
  lemma AlignDownIsMask(width: nat, w: nat, k: nat)
    requires w < Pow2(width) && k <= width
    ensures Not(width, Pow2(k) - 1) >= 0
    ensures And(w, Not(width, Pow2(k) - 1)) == AlignDown(w, k)
  {
    LowMaskBit(width, k, 0);
    var mask := Not(width, Pow2(k) - 1);
    forall i: nat ensures Bit(And(w, mask), i) == Bit(AlignDown(w, k), i) {
      BitAnd(w, mask, i);
      LowMaskBit(width, k, i);
      AlignDownBit(w, k, i);
      if i >= width {
        BitBeyond(width, w, i);
      }
    }
    SameBits(And(w, mask), AlignDown(w, k));
  }

  lemma AlignIsQuotient(v: nat, k: nat)
    ensures Align(v, Pow2(k)) == DivPow2(v + Pow2(k) - 1, k) * Pow2(k)
  {
    DivUnique(v + Pow2(k) - 1, Pow2(k), DivPow2(v + Pow2(k) - 1, k));
  }

  /** align's mask form is rounding up, when adding the alignment does not overflow the word. */
  lemma AlignIsMask(width: nat, v: nat, k: nat)
    requires k <= width && v + Pow2(k) - 1 < Pow2(width)
    ensures Not(width, Pow2(k) - 1) >= 0
    ensures And(v + Pow2(k) - 1, Not(width, Pow2(k) - 1)) == Align(v, Pow2(k))
  {
    AlignDownIsMask(width, v + Pow2(k) - 1, k);
    AlignDownBit(v + Pow2(k) - 1, k, 0);
    AlignIsQuotient(v, k);
  }

  /** Words with the same digits are the same word. */
  lemma {:induction false} SameBits(a: nat, b: nat)
    requires forall i: nat :: Bit(a, i) == Bit(b, i)
    ensures a == b
  {
    assert Bit(a, 0) == Bit(b, 0);
    if a == 0 {
      forall i: nat ensures !Bit(b, i) {
        BitOfZero(i);
      }
      ZeroBits(b);
    } else if b == 0 {
      forall i: nat ensures !Bit(a, i) {
        BitOfZero(i);
      }
      ZeroBits(a);
    } else {
      forall i: nat ensures Bit(a / 2, i) == Bit(b / 2, i) {
        assert Bit(a, i + 1) == Bit(b, i + 1);
      }
      SameBits(a / 2, b / 2);
    }
  }

  // ---------------------------------------------------------------------------------------------- scans

  /** std::countr_zero of a non-zero word. */
  function CountrZero(w: nat): nat
    requires w > 0
  {
    if w % 2 == 1 then 0 else 1 + CountrZero(w / 2)
  }

  /** std::countr_one */
  function CountrOne(w: nat): nat {
    if w % 2 == 0 then 0 else 1 + CountrOne(w / 2)
  }

  /** std::popcount */
  function PopCount(w: nat): nat {
    if w == 0 then 0 else w % 2 + PopCount(w / 2)
  }

  lemma {:induction false} CountrZeroIsLeast(w: nat, i: nat)
    requires w > 0
    ensures Bit(w, CountrZero(w))
    ensures Bit(w, i) ==> CountrZero(w) <= i
  {
    if w % 2 == 0 {
      CountrZeroIsLeast(w / 2, if i > 0 then i - 1 else 0);
    }
  }

  lemma {:induction false} CountrOneIsLeast(w: nat, i: nat)
    ensures !Bit(w, CountrOne(w))
    ensures !Bit(w, i) ==> CountrOne(w) <= i
  {
    if w % 2 == 1 {
      CountrOneIsLeast(w / 2, if i > 0 then i - 1 else 0);
    }
  }

  lemma {:induction false} Log2IsGreatest(w: nat, i: nat)
    requires w > 0
    ensures Bit(w, Log2(w))
    ensures Bit(w, i) ==> i <= Log2(w)
  {
    if w == 1 {
      if i > 0 {
        BitOfZero(i - 1);
      }
    } else {
      Log2IsGreatest(w / 2, if i > 0 then i - 1 else 0);
    }
  }

  /** w & (w - 1) drops the lowest set digit and keeps the others. */
  lemma {:induction false} DropLowest(w: nat, i: nat)
    requires w > 0
    ensures Bit(And(w, w - 1), i) <==> Bit(w, i) && i != CountrZero(w)
  {
    BitAnd(w, w - 1, i);
    if w % 2 == 1 {
      if i > 0 {
        assert (w - 1) / 2 == w / 2;
      }
    } else if i > 0 {
      assert (w - 1) / 2 == w / 2 - 1;
      DropLowest(w / 2, i - 1);
      BitAnd(w / 2, w / 2 - 1, i - 1);
    }
  }

  // ---------------------------------------------------------------------------------------------- counts

  /** How many of the digits in [lo, hi) are set. */
  function CountBits(w: nat, lo: nat, hi: nat): nat
    decreases hi
  {
    if hi <= lo then 0 else CountBits(w, lo, hi - 1) + (if Bit(w, hi - 1) then 1 else 0)
  }

  lemma {:induction false} CountHalf(w: nat, hi: nat)
    ensures CountBits(w, 0, hi + 1) == w % 2 + CountBits(w / 2, 0, hi)
  {
    if hi > 0 {
      CountHalf(w, hi - 1);
    } else {
      assert CountBits(w, 0, 0) == 0;
    }
  }

  lemma {:induction false} PopCountIsCount(width: nat, w: nat)
    requires w < Pow2(width)
    ensures PopCount(w) == CountBits(w, 0, width)
  {
    if width > 0 {
      PopCountIsCount(width - 1, w / 2);
      CountHalf(w, width - 1);
    }
  }

  lemma {:induction false} CountSplit(w: nat, lo: nat, mid: nat, hi: nat)
    requires lo <= mid <= hi
    ensures CountBits(w, lo, hi) == CountBits(w, lo, mid) + CountBits(w, mid, hi)
  {
    if mid < hi {
      CountSplit(w, lo, mid, hi - 1);
    }
  }

  lemma {:induction false} CountSame(v: nat, w: nat, lo: nat, hi: nat)
    requires forall i | lo <= i < hi :: Bit(v, i) == Bit(w, i)
    ensures CountBits(v, lo, hi) == CountBits(w, lo, hi)
  {
    if lo < hi {
      CountSame(v, w, lo, hi - 1);
    }
  }

  /** The population count of a masked word counts the set digits in the mask's range. */
  lemma MaskedCount(width: nat, w: nat, first: nat, last: nat)
    requires first < last <= width && w < Pow2(width)
    ensures PopCount(And(w, Bitmask(width, first, last))) == CountBits(w, first, last)
  {
    var v := And(w, Bitmask(width, first, last));
    AndFits(width, w, Bitmask(width, first, last));
    PopCountIsCount(width, v);
    forall i: nat ensures Bit(v, i) <==> first <= i < last && Bit(w, i) {
      MaskedBit(width, w, first, last, i);
    }
    CountSplit(v, 0, first, width);
    CountSplit(v, first, last, width);
    CountNone(v, 0, first);
    CountNone(v, last, width);
    CountSame(v, w, first, last);
  }

  lemma {:induction false} CountNone(w: nat, lo: nat, hi: nat)
    requires forall i | lo <= i < hi :: !Bit(w, i)
    ensures CountBits(w, lo, hi) == 0
  {
    if lo < hi {
      CountNone(w, lo, hi - 1);
    }
  }

  lemma {:induction false} AndFits(width: nat, a: nat, b: nat)
    requires a < Pow2(width)
    ensures And(a, b) < Pow2(width)
  {
    if width > 0 {
      AndFits(width - 1, a / 2, b / 2);
      assert (a % 2) * (b % 2) <= 1;
    }
  }
}
